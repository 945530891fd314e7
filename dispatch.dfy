/** The program's state and its per-packet and per-frame steps, run in place
    on the session table. */
module Dispatch {
  import opened Bytes
  import opened Results
  import opened FiveTuples
  import opened Sessions
  import opened LinkLayer

  /** The process-wide state: the decoder registry (the names it can create)
      and the session table, updated in place by every packet. */
  class GlobalState {
    const registry: set<string>
    var sessions: SessionMap

    ghost predicate Valid()
      reads this
    {
      ValidSessions(sessions)
    }

    /** `GlobalState::new`: an empty session table. */
    constructor (registry: set<string>)
      ensures Valid()
      ensures this.registry == registry && sessions == map[]
    {
      this.registry := registry;
      sessions := map[];
    }

    /** `callback`: resolve the packet's session, creating it when neither
        orientation is known, then correct and deliver a TCP or UDP payload. */
    method Callback(packet: Option<Ipv4View>, ptype: string) returns (r: Result<()>)
      requires Valid()
      modifies this
      ensures Valid()
      ensures var expected := Step(registry, ptype, old(sessions), packet);
              && (expected.Ok? ==> r.Ok? && sessions == expected.value)
              && (expected.Err? ==> r == Err(expected.error))
      ensures r.Err? ==>
                sessions == if packet.Some? && Resolve(registry, ptype, old(sessions), packet.value.fiveTuple).Ok?
                            then Resolve(registry, ptype, old(sessions), packet.value.fiveTuple).value.sessions
                            else old(sessions)
    {
      if packet.None? {
        return Err(NotIpv4);
      }
      var ipv4 := packet.value;
      var fiveT := ipv4.fiveTuple;
      var direction: Direction := 0;
      if fiveT !in sessions {
        var revFiveT := Reverse(fiveT);
        if revFiveT in sessions {
          fiveT := revFiveT;
          direction := 1;
        } else {
          var created := Create(registry, ptype);
          if created.Err? {
            return Err(created.error);
          }
          sessions := sessions[fiveT := created.value];
        }
      }
      ghost var res := Resolution(sessions, fiveT, direction);
      assert Resolve(registry, ptype, old(sessions), ipv4.fiveTuple) == Ok(res);
      ResolvePreservesValid(registry, ptype, old(sessions), ipv4.fiveTuple);

      if ipv4.nextLevelProtocol == TCP {
        match ipv4.segment
        case Some(tcp) =>
          var payload := RemoveExtraBytes(ipv4.packetSize, tcp.packetLen, ipv4.totalLength, tcp.payload);
          if payload.Err? {
            return Err(payload.error);
          }
          sessions := sessions[fiveT := ParseDataAs(sessions[fiveT], payload.value, direction)];
        case None =>
      }
      if ipv4.nextLevelProtocol == UDP {
        match ipv4.segment
        case Some(udp) =>
          var payload := RemoveExtraBytes(ipv4.packetSize, udp.packetLen, ipv4.totalLength, udp.payload);
          if payload.Err? {
            return Err(payload.error);
          }
          sessions := sessions[fiveT := ParseDataAs(sessions[fiveT], payload.value, direction)];
        case None =>
      }
      StepPreservesValid(registry, ptype, old(sessions), packet);
      r := Ok(());
    }

    /** One turn of the capture loop: demux the frame with the decoder chosen
        for the capture, view the result as IPv4 and dispatch it. */
    method HandleFrame(getData: LinkDecoder, frame: seq<uint8>, ipv4: seq<uint8> -> Option<Ipv4View>, ptype: string)
      returns (r: Result<()>)
      requires Valid()
      modifies this
      ensures Valid()
      ensures var expected := FrameStep(registry, ptype, old(sessions), getData, frame, ipv4);
              && (expected.Ok? ==> r.Ok? && sessions == expected.value)
              && (expected.Err? ==> r == Err(expected.error))
      ensures GetData(getData, frame).Err? ==> sessions == old(sessions)
    {
      var data := GetData(getData, frame);
      if data.Err? {
        return Err(data.error);
      }
      r := Callback(ipv4(data.value), ptype);
    }
  }

  /** The trailer correction as the source runs it, in both branches of
      `callback`: `payload` is reassigned to its prefix when the lengths
      disagree. It is the statement form of `Sessions.TrimExtra`, which
      states the rule on values and which it is proved equal to. */
  method RemoveExtraBytes(packetSize: nat, segmentLen: nat, totalLength: uint16, payload: seq<uint8>)
    returns (r: Result<seq<uint8>>)
    ensures r == TrimExtra(packetSize, segmentLen, totalLength, payload)
  {
    var p := payload;
    if packetSize + segmentLen != totalLength as nat {
      if packetSize + segmentLen < totalLength as nat {
        return Err(ExtraBytesUnderflow);
      }
      var extra := packetSize + segmentLen - totalLength as nat;
      if |p| < extra {
        return Err(ExtraBytesUnderflow);
      }
      var newLen := |p| - extra;
      p := p[0..newLen];
    }
    r := Ok(p);
  }

  /** One frame: demux, then `callback` on the IPv4 view of the result. */
  function FrameStep(registry: set<string>, ptype: string, sessions: SessionMap, getData: LinkDecoder,
                     frame: seq<uint8>, ipv4: seq<uint8> -> Option<Ipv4View>): (r: Result<SessionMap>)
    ensures GetData(getData, frame).Err? ==> r == Err(GetData(getData, frame).error)
    ensures GetData(getData, frame).Ok? ==> r == Step(registry, ptype, sessions, ipv4(GetData(getData, frame).value))
  {
    var data :- GetData(getData, frame);
    Step(registry, ptype, sessions, ipv4(data))
  }

  /** The run over a capture's frames, in order, up to the first fatal error.
      Sessions are never removed, and every session created on the way runs
      the decoder the run was started with. */
  function Frames(registry: set<string>, ptype: string, sessions: SessionMap, getData: LinkDecoder,
                  frames: seq<seq<uint8>>, ipv4: seq<uint8> -> Option<Ipv4View>): (r: Result<SessionMap>)
    ensures frames == [] ==> r == Ok(sessions)
    ensures r.Ok? ==> sessions.Keys <= r.value.Keys
    ensures r.Ok? ==> forall j :: j in r.value ==> r.value[j].name == if j in sessions then sessions[j].name else ptype
    decreases |frames|
  {
    if frames == [] then Ok(sessions)
    else
      var m :- FrameStep(registry, ptype, sessions, getData, frames[0], ipv4);
      StepEffect(registry, ptype, sessions, ipv4(GetData(getData, frames[0]).value).value);
      Frames(registry, ptype, m, getData, frames[1..], ipv4)
  }

  /** The program's order: create the state, select the demux from the link
      type, then process the frames. */
  function Replay(registry: set<string>, ptype: string, linktype: int,
                  frames: seq<seq<uint8>>, ipv4: seq<uint8> -> Option<Ipv4View>): (r: Result<SessionMap>)
    ensures SelectDecoder(linktype).Err? ==> r == Err(UnsupportedLinkType)
    ensures r.Ok? ==> forall j :: j in r.value ==> r.value[j].name == ptype
  {
    var getData :- SelectDecoder(linktype);
    Frames(registry, ptype, map[], getData, frames, ipv4)
  }

  /** An unsupported link type ends the run before any frame is looked at:
      the outcome is the same whatever the frames are. */
  lemma UnsupportedLinkTypeFails(registry: set<string>, ptype: string, linktype: int,
                                 frames: seq<seq<uint8>>, ipv4: seq<uint8> -> Option<Ipv4View>)
    requires linktype != LINKTYPE_ETHERNET && linktype != LINKTYPE_LINUX_SLL && linktype != LINKTYPE_NFLOG
    ensures Replay(registry, ptype, linktype, frames, ipv4) == Err(UnsupportedLinkType)
    ensures Replay(registry, ptype, linktype, frames, ipv4) == Replay(registry, ptype, linktype, [], ipv4)
  {
  }

  /** Every run that succeeds leaves a table with one session per flow and no empty push. */
  lemma {:induction false} FramesPreserveValid(registry: set<string>, ptype: string, sessions: SessionMap, getData: LinkDecoder,
                                               frames: seq<seq<uint8>>, ipv4: seq<uint8> -> Option<Ipv4View>)
    requires ValidSessions(sessions)
    ensures var r := Frames(registry, ptype, sessions, getData, frames, ipv4);
            r.Ok? ==> ValidSessions(r.value)
    decreases |frames|
  {
    if frames != [] && FrameStep(registry, ptype, sessions, getData, frames[0], ipv4).Ok? {
      var data := GetData(getData, frames[0]).value;
      StepPreservesValid(registry, ptype, sessions, ipv4(data));
      var m := FrameStep(registry, ptype, sessions, getData, frames[0], ipv4).value;
      FramesPreserveValid(registry, ptype, m, getData, frames[1..], ipv4);
    }
  }

  /** The IPv4 views of frames the demux accepts, in order. */
  function Demuxed(getData: LinkDecoder, frames: seq<seq<uint8>>, ipv4: seq<uint8> -> Option<Ipv4View>): (ps: seq<Option<Ipv4View>>)
    requires forall i :: 0 <= i < |frames| ==> GetData(getData, frames[i]).Ok?
    ensures |ps| == |frames|
    ensures forall i :: 0 <= i < |frames| ==> ps[i] == ipv4(GetData(getData, frames[i]).value)
  {
    if frames == [] then [] else [ipv4(GetData(getData, frames[0]).value)] + Demuxed(getData, frames[1..], ipv4)
  }

  /** When every frame demuxes, the run over frames is the run over their
      IPv4 views: each frame passes through `callback` in capture order, and
      the first fatal packet ends the run. The lemmas about `Sessions.Steps`
      (session uniqueness among them) therefore hold for whole captures. */
  lemma {:induction false} FramesAreSteps(registry: set<string>, ptype: string, sessions: SessionMap, getData: LinkDecoder,
                                          frames: seq<seq<uint8>>, ipv4: seq<uint8> -> Option<Ipv4View>)
    requires forall i :: 0 <= i < |frames| ==> GetData(getData, frames[i]).Ok?
    ensures Frames(registry, ptype, sessions, getData, frames, ipv4)
            == Steps(registry, ptype, sessions, Demuxed(getData, frames, ipv4))
    decreases |frames|
  {
    if frames != [] {
      var ps := Demuxed(getData, frames, ipv4);
      assert ps[1..] == Demuxed(getData, frames[1..], ipv4);
      var r := Step(registry, ptype, sessions, ps[0]);
      if r.Ok? {
        FramesAreSteps(registry, ptype, r.value, getData, frames[1..], ipv4);
      }
    }
  }

  /** A fatal frame, whether the demux or `callback` fails on it, ends the
      run with its error: no later frame is looked at. */
  lemma FatalFrameEndsRun(registry: set<string>, ptype: string, sessions: SessionMap, getData: LinkDecoder,
                          frames: seq<seq<uint8>>, ipv4: seq<uint8> -> Option<Ipv4View>)
    requires frames != [] && FrameStep(registry, ptype, sessions, getData, frames[0], ipv4).Err?
    ensures Frames(registry, ptype, sessions, getData, frames, ipv4)
            == Err(FrameStep(registry, ptype, sessions, getData, frames[0], ipv4).error)
  {
  }

  /** A successful frame hands the rest of the run the table it leaves. */
  lemma FrameThenRest(registry: set<string>, ptype: string, sessions: SessionMap, getData: LinkDecoder,
                      frames: seq<seq<uint8>>, ipv4: seq<uint8> -> Option<Ipv4View>)
    requires frames != [] && FrameStep(registry, ptype, sessions, getData, frames[0], ipv4).Ok?
    ensures Frames(registry, ptype, sessions, getData, frames, ipv4)
            == Frames(registry, ptype, FrameStep(registry, ptype, sessions, getData, frames[0], ipv4).value,
                      getData, frames[1..], ipv4)
  {
  }

  /** Session uniqueness for a whole capture: when every frame demuxes and the
      packets form one flow, in either orientation, the run leaves exactly one
      session, under the first packet's key, whose decoder got every non-empty
      payload in capture order. */
  lemma ReplayOneFlow(registry: set<string>, ptype: string, linktype: int,
                      frames: seq<seq<uint8>>, ipv4: seq<uint8> -> Option<Ipv4View>)
    requires ptype in registry && SelectDecoder(linktype).Ok?
    requires forall i :: 0 <= i < |frames| ==> GetData(SelectDecoder(linktype).value, frames[i]).Ok?
    requires var ps := Demuxed(SelectDecoder(linktype).value, frames, ipv4);
             |ps| > 0 && ps[0].Some? && OfFlow(ps, ps[0].value.fiveTuple)
    ensures var ps := Demuxed(SelectDecoder(linktype).value, frames, ipv4);
            var k := ps[0].value.fiveTuple;
            Replay(registry, ptype, linktype, frames, ipv4) == Ok(map[k := ParserState(ptype, ExpectedLog(ps, k))])
  {
    var d := SelectDecoder(linktype).value;
    FramesAreSteps(registry, ptype, map[], d, frames, ipv4);
    OneFlowOneSession(registry, ptype, Demuxed(d, frames, ipv4));
  }
}
