/**
 A command's whole way: looked up by name, its arguments encoded under the command's schema,
 framed and numbered by one endpoint, then heard by another, looked up by id and decoded.
 */
module CommandPath {
  import opened Bytes
  import opened SearchableList
  import opened DynamicTypes
  import Spec = DynamicSpec
  import opened DynamicRoundTrip
  import opened DynamicTheorems
  import Frames = ZclFrame
  import opened ZclEndpoint
  import opened ClusterDb

  /** The command to send: its payload is the encoding of its arguments. */
  function CommandFor(address: Address, endpoint: byte, cluster: nat, direction: nat, c: CommandInfo,
      payload: seq<byte>): Command
    requires 0 <= c.id <= 255
  {
    Command(address, endpoint, cluster, c.data.isGlobal, direction, c.id, payload)
  }

  /** Main result. Over one database, a message that carries a command sent by name signals
      exactly that command, found again by id; and its payload decodes to the arguments given
      if and only if they are canonical and no string variant is met while FF01 is the
      attribute id read last. */
  lemma CommandArrives(db: Db, cluster: nat, direction: nat, name: string, arguments: Json, sent: Command,
      number: byte, m: IncomingMsg)
    requires ValidDb(db) && direction < 2
    requires SearchId(db.clusters, cluster).Some? && CommandByName(db, cluster, direction, name).Some?
    requires var c := CommandByName(db, cluster, direction, name).value;
      var cx := Cluster(SearchId(db.clusters, cluster).value.data.attributes);
      var t := ObjectType(c.data.properties);
      && TailGreedy(t) && Unambiguous(t) && Spec.Enc(cx, t, arguments).Ok?
      && 0 <= c.id <= 255
      && sent == CommandFor(sent.address, sent.endpoint, cluster, direction, c, Spec.Enc(cx, t, arguments).bytes)
    requires m.cluster == cluster && m.data == Frames.EncodeFrame(FrameOf(sent, number))
    ensures var c := CommandByName(db, cluster, direction, name).value;
      var cx := Cluster(SearchId(db.clusters, cluster).value.data.attributes);
      var t := ObjectType(c.data.properties);
      && m.data == [(if c.data.isGlobal then 0 else 1) + 8 * direction, number, c.id] + Spec.Enc(cx, t, arguments).bytes
      && SignalOf(m).Some?
      && var x := SignalOf(m).value;
      && CommandById(db, x.cluster, x.command, x.isGlobal, x.direction) == Some(c)
      && var r := Spec.Dec(cx, t, x.payload, None);
         (r.Got? && r.value == arguments && r.used == |x.payload|
          <==> Canon(cx, t, arguments) && Track(cx, t, arguments, None).Some?)
  {
    hide Spec.Enc, Spec.Dec, Canon, Track, TailGreedy, Unambiguous, Frames.EncodeFrame, Frames.DecodeFrame,
      ValidCommands;
    var c := CommandByName(db, cluster, direction, name).value;
    var cx := Cluster(SearchId(db.clusters, cluster).value.data.attributes);
    var t := ObjectType(c.data.properties);
    SentByNameReceivedById(db, cluster, direction, name);
    FrameGoesOut(sent, number);
    CommandBytes(sent, number);
    RoundTrip(cx, t, arguments, [], None);
    var payload := Spec.Enc(cx, t, arguments).bytes;
    assert payload + [] == payload;
  }
}
