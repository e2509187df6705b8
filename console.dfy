/** What a chat peer prints on its console, as abstract events. */
module Console {
  import opened MessageFormat

  datatype Event =
    | Received(id: Uint32, text: seq<Byte>)  // a DATA frame: "<id>: <text>"
    | AckReceived(id: Uint32)                // an ACK frame: "Got ack for message <id>"
    | IncompleteHeader                       // fewer than 9 header bytes arrived
    | IncompleteData                         // fewer payload bytes than announced arrived
    | MessageTooLong                         // send_message refused an over-long text
}
