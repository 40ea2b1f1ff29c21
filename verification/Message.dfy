/** DHCP message types (option 53). */
module Message {
  import opened Base

  datatype MessageType = Discover | Offer | Request | Decline | Ack | Nak | Release | Inform

  function FromU8(v: byte): Option<MessageType> {
    match v
    case 1 => Some(Discover)
    case 2 => Some(Offer)
    case 3 => Some(Request)
    case 4 => Some(Decline)
    case 5 => Some(Ack)
    case 6 => Some(Nak)
    case 7 => Some(Release)
    case 8 => Some(Inform)
    case _ => None
  }

  function ToU8(m: MessageType): (v: byte)
    ensures FromU8(v) == Some(m)
  {
    match m
    case Discover => 1
    case Offer => 2
    case Request => 3
    case Decline => 4
    case Ack => 5
    case Nak => 6
    case Release => 7
    case Inform => 8
  }
}
