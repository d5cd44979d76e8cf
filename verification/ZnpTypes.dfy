/** Command types and commands of the dongle's network processor interface. */
module ZnpTypes {
  import opened Bytes

  // Command types; the wire has four bits for them.
  const SREQ := 2
  const AREQ := 4
  const SRSP := 6

  const RPC_ERROR := 0

  datatype Command = Command(subsystem: nat, raw: byte)

  datatype Frame = Frame(typ: nat, command: Command, payload: seq<byte>) {
    /** Type and subsystem share one byte, four bits each. */
    predicate FitsHeader() {
      typ < 16 && command.subsystem < 16
    }
  }
}
