/** The per-packet pipeline of the dispatcher stated on values: flow and
    direction resolution against the session table, the correction that
    trims capture trailer bytes, and the delivery of the corrected payload
    to the session's decoder. The class in module Dispatch runs these steps
    in place and is proved against them. */
module Sessions {
  import opened Bytes
  import opened Results
  import opened FiveTuples

  /** 0: same orientation as the packet that created the session; 1: the opposite one. */
  type Direction = d: uint8 | d <= 1

  /** One call of the decoder: the bytes it was given and the direction flag. */
  datatype Push = Push(data: seq<uint8>, direction: Direction)

  /** A decoder instance. Its internal state belongs to the external decoder;
      the model keeps the name it was created under and every push it received. */
  datatype ParserState = ParserState(name: string, log: seq<Push>)

  type SessionMap = map<FiveTuple, ParserState>

  /** IpNextHeaderProtocols::Tcp and ::Udp. */
  const TCP: uint8 := 6
  const UDP: uint8 := 17

  /** What the transport-header accessor gives: `packet().len()` (header and
      payload of the segment) and `payload()`. */
  datatype Segment = Segment(packetLen: nat, payload: seq<uint8>)

  /** What the IPv4 accessor gives for one packet: its five-tuple, the next
      level protocol, `packet_size()` (the IP header), the total-length field,
      and the transport segment when its header could be built from the IP
      payload. */
  datatype Ipv4View = Ipv4View(fiveTuple: FiveTuple, nextLevelProtocol: uint8, packetSize: nat,
                               totalLength: uint16, segment: Option<Segment>)

  // ---------------------------------------------------------------------
  // Decoders

  /** `registry.create(name)`: a fresh decoder, or an error for an unknown name. */
  function Create(registry: set<string>, name: string): (r: Result<ParserState>)
    ensures r.Ok? <==> name in registry
    ensures r.Ok? ==> r.value.name == name && r.value.log == []
    ensures r.Err? ==> r.error == UnknownParser
  {
    if name in registry then Ok(ParserState(name, [])) else Err(UnknownParser)
  }

  /** Every push a decoder received carried at least one byte. */
  predicate PushesNonEmpty(log: seq<Push>)
  {
    forall i :: 0 <= i < |log| ==> |log[i].data| > 0
  }

  /** `parse_data_as`: a zero-length payload is not passed on; any other is
      passed to the decoder together with the direction. */
  function ParseDataAs(p: ParserState, i: seq<uint8>, direction: Direction): (q: ParserState)
    ensures q.name == p.name
    ensures |i| == 0 ==> q == p
    ensures PushesNonEmpty(p.log) ==> PushesNonEmpty(q.log)
    ensures |i| > 0 ==> q.log == p.log + [Push(i, direction)]
  {
    if |i| == 0 then p else p.(log := p.log + [Push(i, direction)])
  }

  // ---------------------------------------------------------------------
  // Flow resolution

  /** No flow has two sessions: a key and its distinct reverse are never both present. */
  ghost predicate OnePerFlow(m: SessionMap)
  {
    forall k :: k in m && Reverse(k) in m ==> Reverse(k) == k
  }

  /** The session a packet resolved to: the table after resolution, the key
      the session is stored under, and the packet's direction. */
  datatype Resolution = Resolution(sessions: SessionMap, key: FiveTuple, direction: Direction)

  /** Look the packet's key up; failing that, its reverse (direction 1);
      failing that, create a session under the packet's own key. */
  function Resolve(registry: set<string>, ptype: string, sessions: SessionMap, k: FiveTuple): (r: Result<Resolution>)
    ensures r.Err? <==> k !in sessions && Reverse(k) !in sessions && ptype !in registry
    ensures r.Err? ==> r.error == UnknownParser
    ensures r.Ok? ==>
              && r.value.key in r.value.sessions
              && SameFlow(r.value.key, k)
              && (r.value.direction == 0 <==> r.value.key == k)
              && r.value.sessions.Keys <= sessions.Keys + {k}
              && (forall j :: j in sessions ==> j in r.value.sessions && r.value.sessions[j] == sessions[j])
              && forall j :: j in r.value.sessions && j !in sessions ==> r.value.sessions[j] == ParserState(ptype, [])
  {
    if k in sessions then Ok(Resolution(sessions, k, 0))
    else if Reverse(k) in sessions then Ok(Resolution(sessions, Reverse(k), 1))
    else
      var p :- Create(registry, ptype);
      Ok(Resolution(sessions[k := p], k, 0))
  }

  /** A known key: direction 0 and the table is unchanged. */
  lemma ResolveExisting(registry: set<string>, ptype: string, sessions: SessionMap, k: FiveTuple)
    requires k in sessions
    ensures Resolve(registry, ptype, sessions, k) == Ok(Resolution(sessions, k, 0))
  {
  }

  /** Only the reverse is known: direction 1, the reverse key's session is used
      and nothing is inserted. */
  lemma ResolveReversed(registry: set<string>, ptype: string, sessions: SessionMap, k: FiveTuple)
    requires k !in sessions && Reverse(k) in sessions
    ensures Resolve(registry, ptype, sessions, k) == Ok(Resolution(sessions, Reverse(k), 1))
  {
  }

  /** Neither is known: exactly one fresh session is added, under the packet's
      own key, with direction 0; every other entry is unchanged. */
  lemma ResolveCreates(registry: set<string>, ptype: string, sessions: SessionMap, k: FiveTuple)
    requires k !in sessions && Reverse(k) !in sessions && ptype in registry
    ensures var r := Resolve(registry, ptype, sessions, k);
            && r.Ok? && r.value.key == k && r.value.direction == 0
            && r.value.sessions.Keys == sessions.Keys + {k}
            && |r.value.sessions| == |sessions| + 1
            && r.value.sessions[k] == ParserState(ptype, [])
            && forall j :: j in sessions ==> r.value.sessions[j] == sessions[j]
  {
    var r := Resolve(registry, ptype, sessions, k);
    assert r.value.sessions.Keys == sessions.Keys + {k};
  }

  /** Resolution never creates a second session for a flow. */
  lemma ResolvePreservesOnePerFlow(registry: set<string>, ptype: string, sessions: SessionMap, k: FiveTuple)
    requires OnePerFlow(sessions)
    requires Resolve(registry, ptype, sessions, k).Ok?
    ensures OnePerFlow(Resolve(registry, ptype, sessions, k).value.sessions)
  {
    var m := Resolve(registry, ptype, sessions, k).value.sessions;
    if k !in sessions && Reverse(k) !in sessions {
      forall j | j in m && Reverse(j) in m ensures Reverse(j) == j {
        ReverseInvolutive(j);
        if j != k && Reverse(j) != k {
          assert j in sessions && Reverse(j) in sessions;
        }
      }
    }
  }

  // ---------------------------------------------------------------------
  // Payload correction

  /** The trailer heuristic: with `actual = packetSize + segmentLen`, a
      difference to the total-length field is trailer bytes removed from the
      end of the payload. An `actual` below the total length, or more trailer
      than payload, is an error (the source's subtractions underflow there). */
  function TrimExtra(packetSize: nat, segmentLen: nat, totalLength: uint16, payload: seq<uint8>): (r: Result<seq<uint8>>)
    ensures r.Ok? <==> totalLength as nat <= packetSize + segmentLen <= totalLength as nat + |payload|
    ensures r.Err? ==> r.error == ExtraBytesUnderflow
    ensures r.Ok? ==>
              && |r.value| == |payload| - (packetSize + segmentLen - totalLength as nat)
              && r.value == payload[..|r.value|]
  {
    var actual := packetSize + segmentLen;
    if actual != totalLength as nat then
      if actual < totalLength as nat then Err(ExtraBytesUnderflow)
      else
        var extra := actual - totalLength as nat;
        if |payload| < extra then Err(ExtraBytesUnderflow)
        else
          var newLen := |payload| - extra;
          Ok(payload[0..newLen])
    else
      Ok(payload)
  }

  /** A packet without trailer bytes keeps its payload. */
  lemma TrimExtraNone(packetSize: nat, segmentLen: nat, totalLength: uint16, payload: seq<uint8>)
    requires packetSize + segmentLen == totalLength as nat
    ensures TrimExtra(packetSize, segmentLen, totalLength, payload) == Ok(payload)
  {
    var r := TrimExtra(packetSize, segmentLen, totalLength, payload);
    assert r.value == payload[..|payload|];
  }

  /** The payload handed to `parse_data_as`, if any: TCP and UDP segments are
      corrected by the same rule; other protocols, and segments whose header
      could not be built, hand over nothing. */
  function SegmentPayload(ip: Ipv4View): (r: Result<Option<seq<uint8>>>)
    ensures (ip.nextLevelProtocol != TCP && ip.nextLevelProtocol != UDP) || ip.segment.None? ==> r == Ok(None)
    ensures (ip.nextLevelProtocol == TCP || ip.nextLevelProtocol == UDP) && ip.segment.Some? ==>
              var t := TrimExtra(ip.packetSize, ip.segment.value.packetLen, ip.totalLength, ip.segment.value.payload);
              r == if t.Ok? then Ok(Some(t.value)) else Err(t.error)
    ensures r.Err? ==> r.error == ExtraBytesUnderflow
    ensures r.Ok? && r.value.Some? ==>
              && ip.segment.Some?
              && |r.value.value| <= |ip.segment.value.payload|
              && r.value.value == ip.segment.value.payload[..|r.value.value|]
              && |ip.segment.value.payload| - |r.value.value|
                 == ip.packetSize + ip.segment.value.packetLen - ip.totalLength as nat
  {
    if (ip.nextLevelProtocol == TCP || ip.nextLevelProtocol == UDP) && ip.segment.Some? then
      var seg := ip.segment.value;
      var p :- TrimExtra(ip.packetSize, seg.packetLen, ip.totalLength, seg.payload);
      Ok(Some(p))
    else
      Ok(None)
  }

  // ---------------------------------------------------------------------
  // One packet, and a run of packets

  /** Hand the payload, if any, to the resolved session's decoder. */
  function Deliver(res: Resolution, payload: Option<seq<uint8>>): (m: SessionMap)
    requires res.key in res.sessions
    ensures m.Keys == res.sessions.Keys
    ensures forall j :: j in res.sessions && j != res.key ==> m[j] == res.sessions[j]
    ensures m[res.key].name == res.sessions[res.key].name
    ensures m[res.key].log == res.sessions[res.key].log
                              + if payload.Some? && |payload.value| > 0 then [Push(payload.value, res.direction)] else []
  {
    match payload
    case None => res.sessions
    case Some(p) => res.sessions[res.key := ParseDataAs(res.sessions[res.key], p, res.direction)]
  }

  /** `callback`: a packet whose IPv4 view could not be built is an error;
      otherwise the session is resolved first and the corrected payload is
      then delivered. */
  function Step(registry: set<string>, ptype: string, sessions: SessionMap, packet: Option<Ipv4View>): (r: Result<SessionMap>)
    ensures packet.None? ==> r == Err(NotIpv4)
  {
    if packet.None? then Err(NotIpv4)
    else
      var res :- Resolve(registry, ptype, sessions, packet.value.fiveTuple);
      var payload :- SegmentPayload(packet.value);
      Ok(Deliver(res, payload))
  }

  /** Packets processed in arrival order, stopping at the first fatal error:
      the capture loop once every frame has been demuxed to its IPv4 view
      (`Dispatch.FramesAreSteps` proves the two runs equal). */
  function Steps(registry: set<string>, ptype: string, sessions: SessionMap, packets: seq<Option<Ipv4View>>): (r: Result<SessionMap>)
    ensures packets == [] ==> r == Ok(sessions)
    decreases |packets|
  {
    if packets == [] then Ok(sessions)
    else
      var m :- Step(registry, ptype, sessions, packets[0]);
      Steps(registry, ptype, m, packets[1..])
  }

  /** A fold over packets starts with the first packet's step. */
  lemma StepsCons(registry: set<string>, ptype: string, sessions: SessionMap, packets: seq<Option<Ipv4View>>, m1: SessionMap)
    requires packets != [] && Step(registry, ptype, sessions, packets[0]) == Ok(m1)
    ensures Steps(registry, ptype, sessions, packets) == Steps(registry, ptype, m1, packets[1..])
  {
  }

  /** The invariant of the session table. */
  ghost predicate ValidSessions(m: SessionMap)
  {
    OnePerFlow(m) && forall k :: k in m ==> PushesNonEmpty(m[k].log)
  }

  lemma ResolvePreservesValid(registry: set<string>, ptype: string, sessions: SessionMap, k: FiveTuple)
    requires ValidSessions(sessions)
    requires Resolve(registry, ptype, sessions, k).Ok?
    ensures ValidSessions(Resolve(registry, ptype, sessions, k).value.sessions)
  {
    ResolvePreservesOnePerFlow(registry, ptype, sessions, k);
  }

  /** Every packet keeps the invariant: one session per flow, no empty push. */
  lemma StepPreservesValid(registry: set<string>, ptype: string, sessions: SessionMap, packet: Option<Ipv4View>)
    requires ValidSessions(sessions)
    requires Step(registry, ptype, sessions, packet).Ok?
    ensures ValidSessions(Step(registry, ptype, sessions, packet).value)
  {
    var res := Resolve(registry, ptype, sessions, packet.value.fiveTuple).value;
    ResolvePreservesValid(registry, ptype, sessions, packet.value.fiveTuple);
    var m := Step(registry, ptype, sessions, packet).value;
    assert m.Keys == res.sessions.Keys;
    forall k | k in m && Reverse(k) in m ensures Reverse(k) == k {
      assert k in res.sessions && Reverse(k) in res.sessions;
    }
  }

  /** Resolution runs before the protocol check: a packet that is neither TCP
      nor UDP may create a session but delivers nothing. */
  lemma StepOtherProtocol(registry: set<string>, ptype: string, sessions: SessionMap, ip: Ipv4View)
    requires ip.nextLevelProtocol != TCP && ip.nextLevelProtocol != UDP
    ensures var res := Resolve(registry, ptype, sessions, ip.fiveTuple);
            Step(registry, ptype, sessions, Some(ip)) == if res.Ok? then Ok(res.value.sessions) else Err(UnknownParser)
    ensures var r := Step(registry, ptype, sessions, Some(ip));
            r.Ok? ==> forall k :: k in r.value ==> r.value[k].log == if k in sessions then sessions[k].log else []
  {
  }

  /** A payload that is empty after correction reaches no decoder. */
  lemma StepEmptyPayload(registry: set<string>, ptype: string, sessions: SessionMap, ip: Ipv4View)
    requires SegmentPayload(ip) == Ok(Some([]))
    requires Resolve(registry, ptype, sessions, ip.fiveTuple).Ok?
    ensures Step(registry, ptype, sessions, Some(ip)) == Ok(Resolve(registry, ptype, sessions, ip.fiveTuple).value.sessions)
  {
    var res := Resolve(registry, ptype, sessions, ip.fiveTuple).value;
    assert res.sessions[res.key := res.sessions[res.key]] == res.sessions;
  }

  /** The push a packet of the flow stored under `k` causes, if any. */
  function PushOf(ip: Ipv4View, k: FiveTuple): seq<Push>
    requires SegmentPayload(ip).Ok?
  {
    match SegmentPayload(ip).value
    case Some(p) => if |p| > 0 then [Push(p, if ip.fiveTuple == k then 0 else 1)] else []
    case None => []
  }

  /** When a packet is fatal: it is not IPv4, it needs a session of an
      unknown decoder, or its trailer correction underflows, in that order. */
  lemma StepOutcome(registry: set<string>, ptype: string, sessions: SessionMap, packet: Option<Ipv4View>)
    ensures var r := Step(registry, ptype, sessions, packet);
            && (packet.None? ==> r == Err(NotIpv4))
            && (packet.Some? ==>
                  (r.Ok? <==> Resolve(registry, ptype, sessions, packet.value.fiveTuple).Ok? && SegmentPayload(packet.value).Ok?))
            && (packet.Some? && r.Err? ==>
                  r.error == if Resolve(registry, ptype, sessions, packet.value.fiveTuple).Err? then UnknownParser else ExtraBytesUnderflow)
  {
  }

  /** A packet changes only the session it resolved to: every other entry,
      old or new, is kept, and the resolved session's decoder receives the
      corrected payload, if it is non-empty, with the packet's direction. */
  lemma StepEffect(registry: set<string>, ptype: string, sessions: SessionMap, ip: Ipv4View)
    requires Step(registry, ptype, sessions, Some(ip)).Ok?
    ensures Resolve(registry, ptype, sessions, ip.fiveTuple).Ok? && SegmentPayload(ip).Ok?
    ensures var res := Resolve(registry, ptype, sessions, ip.fiveTuple).value;
            var m := Step(registry, ptype, sessions, Some(ip)).value;
            && m.Keys == res.sessions.Keys
            && (forall j :: j in res.sessions && j != res.key ==> m[j] == res.sessions[j])
            && (forall j :: j in sessions && j != res.key ==> m[j] == sessions[j])
            && m[res.key] == ParserState(res.sessions[res.key].name, res.sessions[res.key].log + PushOf(ip, res.key))
    ensures var m := Step(registry, ptype, sessions, Some(ip)).value;
            && sessions.Keys <= m.Keys <= sessions.Keys + {ip.fiveTuple}
            && forall j :: j in m ==> m[j].name == if j in sessions then sessions[j].name else ptype
  {
  }

  /** Packets that all belong to the flow `k`, in either orientation, and are processed without error. */
  predicate OfFlow(packets: seq<Option<Ipv4View>>, k: FiveTuple)
  {
    forall i :: 0 <= i < |packets| ==>
      packets[i].Some? && SameFlow(packets[i].value.fiveTuple, k) && SegmentPayload(packets[i].value).Ok?
  }

  /** The pushes the decoder of flow `k` should receive from `packets`, in order. */
  function ExpectedLog(packets: seq<Option<Ipv4View>>, k: FiveTuple): seq<Push>
    requires OfFlow(packets, k)
  {
    if packets == [] then [] else PushOf(packets[0].value, k) + ExpectedLog(packets[1..], k)
  }

  /** Delivering to the only session of a table appends the packet's push, if any. */
  lemma DeliverToOnly(p: ParserState, ip: Ipv4View, k: FiveTuple, direction: Direction)
    requires SegmentPayload(ip).Ok?
    requires direction == if ip.fiveTuple == k then 0 else 1
    ensures Deliver(Resolution(map[k := p], k, direction), SegmentPayload(ip).value)
            == map[k := ParserState(p.name, p.log + PushOf(ip, k))]
  {
    var payload := SegmentPayload(ip).value;
    if payload.None? || |payload.value| == 0 {
      assert p.log + [] == p.log;
    }
  }

  /** One packet of the flow stored alone under `k` keeps the table at `k` and appends its push. */
  lemma StepWithinFlow(registry: set<string>, ptype: string, p: ParserState, ip: Ipv4View, k: FiveTuple)
    requires SameFlow(ip.fiveTuple, k) && SegmentPayload(ip).Ok?
    ensures Step(registry, ptype, map[k := p], Some(ip)) == Ok(map[k := ParserState(p.name, p.log + PushOf(ip, k))])
  {
    var m := map[k := p];
    var dir: Direction := if ip.fiveTuple == k then 0 else 1;
    if ip.fiveTuple == k {
      ResolveExisting(registry, ptype, m, k);
    } else {
      ReverseInvolutive(k);
      ResolveReversed(registry, ptype, m, ip.fiveTuple);
    }
    assert Resolve(registry, ptype, m, ip.fiveTuple) == Ok(Resolution(m, k, dir));
    DeliverToOnly(p, ip, k, dir);
  }

  lemma {:induction false} StepsWithinFlow(registry: set<string>, ptype: string, p: ParserState,
                                           packets: seq<Option<Ipv4View>>, k: FiveTuple)
    requires OfFlow(packets, k)
    ensures Steps(registry, ptype, map[k := p], packets)
            == Ok(map[k := ParserState(p.name, p.log + ExpectedLog(packets, k))])
    decreases |packets|
  {
    if packets == [] {
      assert p.log + [] == p.log;
    } else {
      var p1 := ParserState(p.name, p.log + PushOf(packets[0].value, k));
      OfFlowTail(packets, k);
      LogAfterFirst(p.log, packets, k);
      StepsWithinFlow(registry, ptype, p1, packets[1..], k);
      StepsWithinFlowFirst(registry, ptype, p, packets, k);
    }
  }

  /** The first packet of such a run: the rest of the run starts from the table it leaves. */
  lemma StepsWithinFlowFirst(registry: set<string>, ptype: string, p: ParserState,
                             packets: seq<Option<Ipv4View>>, k: FiveTuple)
    requires packets != [] && OfFlow(packets, k)
    ensures Steps(registry, ptype, map[k := p], packets)
            == Steps(registry, ptype, map[k := ParserState(p.name, p.log + PushOf(packets[0].value, k))], packets[1..])
  {
    var p1 := ParserState(p.name, p.log + PushOf(packets[0].value, k));
    StepWithinFlow(registry, ptype, p, packets[0].value, k);
    StepsCons(registry, ptype, map[k := p], packets, map[k := p1]);
  }

  /** The log after the first packet, extended by the rest, is the log extended by all of them. */
  lemma LogAfterFirst(log: seq<Push>, packets: seq<Option<Ipv4View>>, k: FiveTuple)
    requires packets != [] && OfFlow(packets, k) && OfFlow(packets[1..], k)
    requires ExpectedLog(packets, k) == PushOf(packets[0].value, k) + ExpectedLog(packets[1..], k)
    ensures (log + PushOf(packets[0].value, k)) + ExpectedLog(packets[1..], k) == log + ExpectedLog(packets, k)
  {
  }

  lemma OfFlowTail(packets: seq<Option<Ipv4View>>, k: FiveTuple)
    requires packets != [] && OfFlow(packets, k)
    ensures OfFlow(packets[1..], k)
    ensures ExpectedLog(packets, k) == PushOf(packets[0].value, k) + ExpectedLog(packets[1..], k)
  {
    assert forall i :: 0 <= i < |packets[1..]| ==> packets[1..][i] == packets[i + 1];
  }

  /** Session uniqueness: packets of one flow in both orientations, starting
      from an empty table, leave exactly one session, under the first
      packet's key, and its decoder receives every non-empty payload in
      arrival order, with direction 0 for the orientation of the first packet
      and 1 for the other. */
  lemma OneFlowOneSession(registry: set<string>, ptype: string, packets: seq<Option<Ipv4View>>)
    requires ptype in registry
    requires |packets| > 0 && packets[0].Some?
    requires OfFlow(packets, packets[0].value.fiveTuple)
    ensures var k := packets[0].value.fiveTuple;
            Steps(registry, ptype, map[], packets) == Ok(map[k := ParserState(ptype, ExpectedLog(packets, k))])
  {
    var k := packets[0].value.fiveTuple;
    var p0 := ParserState(ptype, []);
    ResolveCreates(registry, ptype, map[], k);
    assert Resolve(registry, ptype, map[], k) == Ok(Resolution(map[k := p0], k, 0));
    DeliverToOnly(p0, packets[0].value, k, 0);
    var p1 := ParserState(ptype, [] + PushOf(packets[0].value, k));
    assert Steps(registry, ptype, map[], packets) == Steps(registry, ptype, map[k := p1], packets[1..]);
    OfFlowTail(packets, k);
    StepsWithinFlow(registry, ptype, p1, packets[1..], k);
    assert [] + PushOf(packets[0].value, k) == PushOf(packets[0].value, k);
  }

  /** A TCP packet with a non-empty payload and no trailer bytes. */
  predicate PlainTcp(ip: Ipv4View)
  {
    && ip.nextLevelProtocol == TCP
    && ip.segment.Some?
    && ip.packetSize + ip.segment.value.packetLen == ip.totalLength as nat
    && |ip.segment.value.payload| > 0
  }

  /** A->B then B->A: one session, and its decoder receives the two payloads
      with directions 0 then 1. */
  lemma TwoPacketScenario(registry: set<string>, ptype: string, a: Ipv4View, b: Ipv4View)
    requires ptype in registry
    requires PlainTcp(a) && PlainTcp(b)
    requires b.fiveTuple == Reverse(a.fiveTuple) && b.fiveTuple != a.fiveTuple
    ensures Steps(registry, ptype, map[], [Some(a), Some(b)])
            == Ok(map[a.fiveTuple := ParserState(ptype, [Push(a.segment.value.payload, 0), Push(b.segment.value.payload, 1)])])
  {
    var k := a.fiveTuple;
    var packets := [Some(a), Some(b)];
    TrimExtraNone(a.packetSize, a.segment.value.packetLen, a.totalLength, a.segment.value.payload);
    TrimExtraNone(b.packetSize, b.segment.value.packetLen, b.totalLength, b.segment.value.payload);
    assert OfFlow(packets, k);
    OneFlowOneSession(registry, ptype, packets);
    assert SegmentPayload(a) == Ok(Some(a.segment.value.payload));
    assert SegmentPayload(b) == Ok(Some(b.segment.value.payload));
    assert packets[1..][1..] == [];
    assert ExpectedLog(packets[1..], k) == [Push(b.segment.value.payload, 1)];
    assert ExpectedLog(packets, k) == [Push(a.segment.value.payload, 0), Push(b.segment.value.payload, 1)];
  }
}
