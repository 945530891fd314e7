/** The header of the tcpdump LINKTYPE_NFLOG (239) encapsulation: a 4-byte
    prefix (address family, version, little-endian resource id) followed by
    type-length-value attribute records up to the end of the frame. Each
    record is `l:u16le, t:u16le, v:(l-4) bytes`, padded to a multiple of 4.
    The captured network-layer packet is the value of the first record of
    type NFULA_PAYLOAD. */
module Nflog {
  import opened Bytes
  import opened Results

  /** Attribute type carrying the logged packet (linux/netfilter/nfnetlink_log.h). */
  const NFULA_PAYLOAD: uint16 := 9

  /** One attribute record: its length field (prefix included), its type and its value. */
  datatype Tlv = Tlv(l: uint16, t: uint16, v: seq<uint8>)

  datatype Hdr = Hdr(af: uint8, vers: uint8, resId: uint16, data: seq<Tlv>)

  // ---------------------------------------------------------------------
  // The nom primitives the parsers are built from. Running out of input is
  // `Incomplete`, as in nom.

  function LeU8(s: seq<uint8>): (r: Result<(uint8, seq<uint8>)>)
    ensures r.Ok? <==> |s| >= 1
    ensures r.Err? ==> r.error == Incomplete
    ensures r.Ok? ==> r.value.0 == s[0] && r.value.1 == s[1..]
  {
    if |s| < 1 then Err(Incomplete) else Ok((s[0], s[1..]))
  }

  function LeU16(s: seq<uint8>): (r: Result<(uint16, seq<uint8>)>)
    ensures r.Ok? <==> |s| >= 2
    ensures r.Err? ==> r.error == Incomplete
    ensures r.Ok? ==> r.value.0 == LeU16Of(s[0], s[1]) && r.value.1 == s[2..]
  {
    if |s| < 2 then Err(Incomplete) else Ok((LeU16Of(s[0], s[1]), s[2..]))
  }

  function Take(s: seq<uint8>, n: nat): (r: Result<(seq<uint8>, seq<uint8>)>)
    ensures r.Ok? <==> |s| >= n
    ensures r.Err? ==> r.error == Incomplete
    ensures r.Ok? ==> |r.value.0| == n && s == r.value.0 + r.value.1
  {
    if |s| < n then Err(Incomplete) else Ok((s[..n], s[n..]))
  }

  // ---------------------------------------------------------------------
  // Decoding

  /** `l` rounded up to the next multiple of 4: the bytes a record of length `l` occupies. */
  function PaddedLen(l: nat): (r: nat)
    ensures r % 4 == 0 && l <= r < l + 4
    ensures l % 4 == 0 ==> r == l
  {
    if l % 4 == 0 then l else l + (4 - l % 4)
  }

  /** One record (`parse_nflog_tlv`): read `l` and `t`, take `l - 4` value
      bytes, then skip `4 - l % 4` padding bytes when `l % 4 != 0`. A length
      below 4 is an error (the source's `l - 4` underflows there). */
  function ParseTlv(s: seq<uint8>): (r: Result<(Tlv, seq<uint8>)>)
    ensures r.Err? <==>
              || |s| < 4
              || LeU16Of(s[0], s[1]) < 4
              || |s| < PaddedLen(LeU16Of(s[0], s[1]) as nat)
    ensures r.Err? ==> r.error == (if 4 <= |s| && LeU16Of(s[0], s[1]) < 4 then LengthUnderflow else Incomplete)
    ensures r.Ok? ==>
              var (tlv, rest) := r.value;
              && tlv.l == LeU16Of(s[0], s[1])
              && tlv.t == LeU16Of(s[2], s[3])
              && 4 <= tlv.l as nat <= PaddedLen(tlv.l as nat) <= |s|
              && tlv.v == s[4..tlv.l]
              && rest == s[PaddedLen(tlv.l as nat)..]
  {
    var lp :- LeU16(s);
    var tp :- LeU16(lp.1);
    var l := lp.0;
    if l < 4 then Err(LengthUnderflow)
    else
      var vp :- Take(tp.1, l as nat - 4);
      if l % 4 != 0 then
        var padding :- Take(vp.1, 4 - l as nat % 4);
        Ok((Tlv(l, tp.0, vp.0), padding.1))
      else
        Ok((Tlv(l, tp.0, vp.0), vp.1))
  }

  /** A record the encoder can write: its length covers the prefix and matches its value. */
  predicate WellFormed(tlv: Tlv)
  {
    4 <= tlv.l as nat && |tlv.v| == tlv.l as nat - 4
  }

  predicate AllWellFormed(ts: seq<Tlv>)
  {
    forall i :: 0 <= i < |ts| ==> WellFormed(ts[i])
  }

  /** The bytes the records occupy on the wire, padding included. */
  function EncodedLen(ts: seq<Tlv>): nat
  {
    if ts == [] then 0 else PaddedLen(ts[0].l as nat) + EncodedLen(ts[1..])
  }

  /** Prepending a record adds its padded length and keeps well-formedness. */
  lemma RecordsCons(tlv: Tlv, ts: seq<Tlv>)
    ensures EncodedLen([tlv] + ts) == PaddedLen(tlv.l as nat) + EncodedLen(ts)
    ensures AllWellFormed([tlv] + ts) <==> WellFormed(tlv) && AllWellFormed(ts)
  {
    var c := [tlv] + ts;
    assert c[0] == tlv && c[1..] == ts;
    assert forall i :: 0 <= i < |ts| ==> c[i + 1] == ts[i];
  }

  /** `many0!(parse_nflog_tlv)`: records until the input is exhausted. Every
      failure of a record is an incomplete or underflowing one, which `many0`
      propagates rather than stopping at. On success the records are well
      formed and together occupy the whole input. */
  function ParseTlvs(s: seq<uint8>): (r: Result<seq<Tlv>>)
    ensures r.Ok? ==> AllWellFormed(r.value) && EncodedLen(r.value) == |s|
    ensures r.Err? ==> r.error == Incomplete || r.error == LengthUnderflow
    ensures s == [] ==> r == Ok([])
    decreases |s|
  {
    if |s| == 0 then Ok([])
    else
      var p :- ParseTlv(s);
      var rest :- ParseTlvs(p.1);
      RecordsCons(p.0, rest);
      Ok([p.0] + rest)
  }

  /** `parse_nflog_header`: `af` is byte 0, `vers` byte 1, `res_id` bytes 2..4
      little-endian, and the records are parsed from offset 4 to the end. */
  function ParseHeader(s: seq<uint8>): (r: Result<Hdr>)
    ensures r.Ok? <==> |s| >= 4 && ParseTlvs(s[4..]).Ok?
    ensures r.Err? ==> r.error == Incomplete || r.error == LengthUnderflow
    ensures |s| >= 4 && r.Err? ==> r.error == ParseTlvs(s[4..]).error
    ensures r.Ok? ==> r.value == Hdr(s[0], s[1], LeU16Of(s[2], s[3]), ParseTlvs(s[4..]).value)
    ensures |s| == 4 ==> r == Ok(Hdr(s[0], s[1], LeU16Of(s[2], s[3]), []))
  {
    var af :- LeU8(s);
    var vers :- LeU8(af.1);
    var id :- LeU16(vers.1);
    assert id.1 == s[4..];
    var d :- ParseTlvs(id.1);
    Ok(Hdr(af.0, vers.0, id.0, d))
  }

  /** The records' iterator `find` for the payload type. */
  function FindPayload(ts: seq<Tlv>): (r: Option<Tlv>)
    ensures r.None? <==> forall i :: 0 <= i < |ts| ==> ts[i].t != NFULA_PAYLOAD
    ensures r.Some? ==>
              exists i :: 0 <= i < |ts| && ts[i] == r.value && ts[i].t == NFULA_PAYLOAD
                          && forall j :: 0 <= j < i ==> ts[j].t != NFULA_PAYLOAD
  {
    if ts == [] then None
    else if ts[0].t == NFULA_PAYLOAD then Some(ts[0])
    else
      var r := FindPayload(ts[1..]);
      assert r.Some? ==> exists i :: 1 <= i < |ts| && ts[i] == r.value && ts[i].t == NFULA_PAYLOAD
                                     && forall j :: 0 <= j < i ==> ts[j].t != NFULA_PAYLOAD by {
        if r.Some? {
          var i :| 0 <= i < |ts[1..]| && ts[1..][i] == r.value && ts[1..][i].t == NFULA_PAYLOAD
                   && forall j :: 0 <= j < i ==> ts[1..][j].t != NFULA_PAYLOAD;
          assert forall j :: 0 <= j < i + 1 ==> ts[j].t != NFULA_PAYLOAD by {
            forall j | 0 <= j < i + 1 ensures ts[j].t != NFULA_PAYLOAD {
              if j > 0 { assert ts[j] == ts[1..][j - 1]; }
            }
          }
          assert ts[i + 1] == r.value;
        }
      }
      r
  }

  /** `get_data_nflog`: the value of the first payload record. A header that
      does not parse, and a header without a payload record, are errors. */
  function GetDataNflog(packet: seq<uint8>): (r: Result<seq<uint8>>)
    ensures ParseHeader(packet).Err? ==> r == Err(ParseHeader(packet).error)
    ensures ParseHeader(packet).Ok? ==>
              var ts := ParseHeader(packet).value.data;
              && (r.Err? <==> forall i :: 0 <= i < |ts| ==> ts[i].t != NFULA_PAYLOAD)
              && (r.Err? ==> r.error == NoPayloadAttribute)
              && (r.Ok? ==> exists i :: 0 <= i < |ts| && ts[i].t == NFULA_PAYLOAD && ts[i].v == r.value
                                        && forall j :: 0 <= j < i ==> ts[j].t != NFULA_PAYLOAD)
  {
    var h :- ParseHeader(packet);
    match FindPayload(h.data)
    case Some(tlv) => Ok(tlv.v)
    case None => Err(NoPayloadAttribute)
  }

  // ---------------------------------------------------------------------
  // Encoding: the inverse of the decoder. The padding bytes are arbitrary,
  // since the decoder skips them without looking at them.

  /** `pad` has the length the decoder skips after a record of length `l`. */
  predicate PadFits(tlv: Tlv, pad: seq<uint8>)
  {
    |pad| == PaddedLen(tlv.l as nat) - tlv.l as nat
  }

  /** One padding sequence per record, each of the length its record needs. */
  predicate PadsFit(ts: seq<Tlv>, pads: seq<seq<uint8>>)
  {
    |pads| == |ts| && forall i :: 0 <= i < |ts| ==> PadFits(ts[i], pads[i])
  }

  function EncodeTlv(tlv: Tlv, pad: seq<uint8>): (r: seq<uint8>)
    requires WellFormed(tlv) && PadFits(tlv, pad)
    ensures |r| == PaddedLen(tlv.l as nat)
  {
    LeBytes16(tlv.l) + LeBytes16(tlv.t) + tlv.v + pad
  }

  function EncodeTlvs(ts: seq<Tlv>, pads: seq<seq<uint8>>): (r: seq<uint8>)
    requires AllWellFormed(ts) && PadsFit(ts, pads)
    ensures |r| == EncodedLen(ts)
  {
    if ts == [] then [] else EncodeTlv(ts[0], pads[0]) + EncodeTlvs(ts[1..], pads[1..])
  }

  function EncodeHeader(h: Hdr, pads: seq<seq<uint8>>): (r: seq<uint8>)
    requires AllWellFormed(h.data) && PadsFit(h.data, pads)
    ensures |r| == 4 + EncodedLen(h.data)
  {
    [h.af, h.vers] + LeBytes16(h.resId) + EncodeTlvs(h.data, pads)
  }

  // ---------------------------------------------------------------------
  // Properties

  /** One encoded record, whatever its padding bytes and whatever follows,
      decodes to itself and leaves the rest. */
  lemma ParseEncodeTlv(tlv: Tlv, pad: seq<uint8>, rest: seq<uint8>)
    requires WellFormed(tlv) && PadFits(tlv, pad)
    ensures ParseTlv(EncodeTlv(tlv, pad) + rest) == Ok((tlv, rest))
  {
    var e := EncodeTlv(tlv, pad);
    var s := e + rest;
    var lb, tb := LeBytes16(tlv.l), LeBytes16(tlv.t);
    assert s[0] == lb[0] && s[1] == lb[1] && s[2] == tb[0] && s[3] == tb[1];
    assert s[4..tlv.l] == tlv.v by {
      assert e[4..tlv.l] == tlv.v;
    }
    assert s[PaddedLen(tlv.l as nat)..] == rest;
  }

  /** Round trip: well-formed records, encoded with any padding bytes, decode
      to the same records, lengths, types and values. */
  lemma {:induction false} ParseEncodeTlvs(ts: seq<Tlv>, pads: seq<seq<uint8>>)
    requires AllWellFormed(ts) && PadsFit(ts, pads)
    ensures ParseTlvs(EncodeTlvs(ts, pads)) == Ok(ts)
  {
    if ts != [] {
      var tail := EncodeTlvs(ts[1..], pads[1..]);
      assert EncodeTlvs(ts, pads) == EncodeTlv(ts[0], pads[0]) + tail;
      ParseTlvsAfterRecord(ts[0], pads[0], tail);
      ParseEncodeTlvs(ts[1..], pads[1..]);
      assert [ts[0]] + ts[1..] == ts;
    }
  }

  /** Round trip for the whole header. */
  lemma ParseEncodeHeader(h: Hdr, pads: seq<seq<uint8>>)
    requires AllWellFormed(h.data) && PadsFit(h.data, pads)
    ensures ParseHeader(EncodeHeader(h, pads)) == Ok(h)
  {
    var s := EncodeHeader(h, pads);
    var e := EncodeTlvs(h.data, pads);
    var b := LeBytes16(h.resId);
    assert s == [h.af, h.vers, b[0], b[1]] + e;
    assert s[4..] == e;
    ParseEncodeTlvs(h.data, pads);
    assert LeU16Of(s[2], s[3]) == h.resId;
  }

  /** Behind a complete record, the record list parses exactly as the rest does. */
  lemma ParseTlvsAfterRecord(tlv: Tlv, pad: seq<uint8>, rest: seq<uint8>)
    requires WellFormed(tlv) && PadFits(tlv, pad)
    ensures ParseTlvs(EncodeTlv(tlv, pad) + rest)
            == match ParseTlvs(rest) case Ok(ts) => Ok([tlv] + ts) case Err(e) => Err(e)
  {
    ParseEncodeTlv(tlv, pad, rest);
    assert |EncodeTlv(tlv, pad) + rest| > 0;
  }

  /** A record cut short inside its prefix, value or padding does not parse. */
  lemma TruncatedFirstRecord(tlv: Tlv, pad: seq<uint8>, k: nat)
    requires WellFormed(tlv) && PadFits(tlv, pad)
    requires 0 < k < PaddedLen(tlv.l as nat)
    ensures ParseTlvs(EncodeTlv(tlv, pad)[..k]).Err?
  {
    var cut := EncodeTlv(tlv, pad)[..k];
    if k >= 4 {
      var lb := LeBytes16(tlv.l);
      assert cut[0] == lb[0] && cut[1] == lb[1];
    }
    assert ParseTlv(cut).Err?;
  }

  /** A record cut short anywhere inside its prefix, value or padding makes
      the record list, and so the header, fail to parse. */
  lemma {:induction false} TruncatedRecordFails(before: seq<Tlv>, pads: seq<seq<uint8>>, tlv: Tlv, pad: seq<uint8>, k: nat)
    requires AllWellFormed(before) && PadsFit(before, pads)
    requires WellFormed(tlv) && PadFits(tlv, pad)
    requires 0 < k < PaddedLen(tlv.l as nat)
    ensures ParseTlvs(EncodeTlvs(before, pads) + EncodeTlv(tlv, pad)[..k]).Err?
  {
    var cut := EncodeTlv(tlv, pad)[..k];
    if before == [] {
      assert EncodeTlvs(before, pads) + cut == cut;
      TruncatedFirstRecord(tlv, pad, k);
    } else {
      var tail := EncodeTlvs(before[1..], pads[1..]) + cut;
      assert EncodeTlvs(before, pads) + cut == EncodeTlv(before[0], pads[0]) + tail;
      ParseTlvsAfterRecord(before[0], pads[0], tail);
      TruncatedRecordFails(before[1..], pads[1..], tlv, pad, k);
    }
  }

  /** An input shorter than the 4-byte prefix fails; exactly the prefix parses
      with no records. */
  lemma ShortHeader(s: seq<uint8>)
    ensures |s| < 4 ==> ParseHeader(s) == Err(Incomplete) && GetDataNflog(s).Err?
    ensures |s| == 4 ==> ParseHeader(s).Ok? && ParseHeader(s).value.data == []
  {
  }

  /** The first payload record is selected whatever comes before it (with no
      payload type) and whatever comes after it. */
  lemma FindPayloadFirst(before: seq<Tlv>, tlv: Tlv, after: seq<Tlv>)
    requires forall i :: 0 <= i < |before| ==> before[i].t != NFULA_PAYLOAD
    requires tlv.t == NFULA_PAYLOAD
    ensures FindPayload(before + [tlv] + after) == Some(tlv)
  {
    var ts := before + [tlv] + after;
    assert forall j :: 0 <= j < |before| ==> ts[j] == before[j];
    assert ts[|before|] == tlv;
  }

  /** Extraction: a header whose first payload record holds `v` yields exactly `v`. */
  lemma GetDataNflogOfEncoded(af: uint8, vers: uint8, resId: uint16, before: seq<Tlv>, v: seq<uint8>,
                              after: seq<Tlv>, pads: seq<seq<uint8>>)
    requires AllWellFormed(before) && AllWellFormed(after)
    requires forall i :: 0 <= i < |before| ==> before[i].t != NFULA_PAYLOAD
    requires |v| + 4 < 0x1_0000
    requires PadsFit(before + [Tlv((|v| + 4) as uint16, NFULA_PAYLOAD, v)] + after, pads)
    ensures GetDataNflog(EncodeHeader(Hdr(af, vers, resId, before + [Tlv((|v| + 4) as uint16, NFULA_PAYLOAD, v)] + after), pads)) == Ok(v)
  {
    var tlv := Tlv((|v| + 4) as uint16, NFULA_PAYLOAD, v);
    var h := Hdr(af, vers, resId, before + [tlv] + after);
    assert AllWellFormed(h.data) by {
      forall i | 0 <= i < |h.data| ensures WellFormed(h.data[i]) {
        if i < |before| { assert h.data[i] == before[i]; }
        else if i > |before| { assert h.data[i] == after[i - |before| - 1]; }
      }
    }
    ParseEncodeHeader(h, pads);
    FindPayloadFirst(before, tlv, after);
  }

  /** A header that parses but holds no payload record is an error, not an empty payload. */
  lemma NoPayloadFails(h: Hdr, pads: seq<seq<uint8>>)
    requires AllWellFormed(h.data) && PadsFit(h.data, pads)
    requires forall i :: 0 <= i < |h.data| ==> h.data[i].t != NFULA_PAYLOAD
    ensures GetDataNflog(EncodeHeader(h, pads)) == Err(NoPayloadAttribute)
  {
    ParseEncodeHeader(h, pads);
  }

  /** Records of lengths 4, 5, 8 and 9 (no padding, 3 padding bytes, none,
      3 padding bytes) round-trip and, with the prefix, occupy 36 bytes. */
  lemma RoundTripExample(af: uint8, vers: uint8, resId: uint16, t: seq<uint16>, v5: seq<uint8>, v8: seq<uint8>, v9: seq<uint8>,
                         pad5: seq<uint8>, pad9: seq<uint8>)
    requires |t| == 4 && |v5| == 1 && |v8| == 4 && |v9| == 5 && |pad5| == 3 && |pad9| == 3
    ensures var h := Hdr(af, vers, resId, [Tlv(4, t[0], []), Tlv(5, t[1], v5), Tlv(8, t[2], v8), Tlv(9, t[3], v9)]);
            var pads := [[], pad5, [], pad9];
            && AllWellFormed(h.data) && PadsFit(h.data, pads)
            && ParseHeader(EncodeHeader(h, pads)) == Ok(h)
            && |EncodeHeader(h, pads)| == 36
  {
    var r4, r5, r8, r9 := Tlv(4, t[0], []), Tlv(5, t[1], v5), Tlv(8, t[2], v8), Tlv(9, t[3], v9);
    assert PaddedLen(4) == 4 && PaddedLen(5) == 8 && PaddedLen(8) == 8 && PaddedLen(9) == 12;
    RecordsCons(r9, []);
    RecordsCons(r8, [r9]);
    RecordsCons(r5, [r8] + [r9]);
    RecordsCons(r4, [r5] + ([r8] + [r9]));
    var ts := [r4] + ([r5] + ([r8] + [r9]));
    assert ts == [r4, r5, r8, r9];
    var pads: seq<seq<uint8>> := [[], pad5, [], pad9];
    assert PadsFit(ts, pads);
    ParseEncodeHeader(Hdr(af, vers, resId, ts), pads);
  }

  /** A payload record `[0xAA, 0xBB, 0xCC]` between two other records is extracted exactly. */
  lemma PayloadExample(af: uint8, vers: uint8, resId: uint16, other: Tlv, later: Tlv, pads: seq<seq<uint8>>)
    requires WellFormed(other) && WellFormed(later) && other.t != NFULA_PAYLOAD
    requires PadsFit([other, Tlv(7, NFULA_PAYLOAD, [0xAA, 0xBB, 0xCC]), later], pads)
    ensures GetDataNflog(EncodeHeader(Hdr(af, vers, resId, [other, Tlv(7, NFULA_PAYLOAD, [0xAA, 0xBB, 0xCC]), later]), pads))
            == Ok([0xAA, 0xBB, 0xCC])
  {
    var v: seq<uint8> := [0xAA, 0xBB, 0xCC];
    var payload := Tlv((|v| + 4) as uint16, NFULA_PAYLOAD, v);
    assert payload == Tlv(7, NFULA_PAYLOAD, [0xAA, 0xBB, 0xCC]);
    assert [other] + [payload] + [later] == [other, payload, later];
    GetDataNflogOfEncoded(af, vers, resId, [other], v, [later], pads);
  }

  /** The converse of the record round trip: a record the decoder accepts is
      the encoding of what it returns, with the skipped bytes as padding. */
  lemma EncodeParsedTlv(s: seq<uint8>)
    requires ParseTlv(s).Ok?
    ensures var tlv := ParseTlv(s).value.0;
            var pad := s[tlv.l..PaddedLen(tlv.l as nat)];
            && WellFormed(tlv) && PadFits(tlv, pad)
            && EncodeTlv(tlv, pad) + ParseTlv(s).value.1 == s
  {
    var r := ParseTlv(s).value;
    var l, n := r.0.l as nat, PaddedLen(r.0.l as nat);
    LeBytes16Of(s[0], s[1]);
    LeBytes16Of(s[2], s[3]);
    SplitAt(s, l, n);
    assert EncodeTlv(r.0, s[l..n]) == s[..2] + s[2..4] + s[4..l] + s[l..n];
  }

  /** The pieces a record occupies, put back together. */
  lemma SplitAt(s: seq<uint8>, l: nat, n: nat)
    requires 4 <= l <= n <= |s|
    ensures s[..2] + s[2..4] + s[4..l] + s[l..n] + s[n..] == s
  {
    assert s[..2] + s[2..4] == s[..4];
    assert s[..4] + s[4..l] == s[..l];
    assert s[..l] + s[l..n] == s[..n];
  }

  /** A non-empty accepted input is its first record followed by the records of the rest. */
  lemma ParseTlvsFirst(s: seq<uint8>)
    requires s != [] && ParseTlvs(s).Ok?
    ensures ParseTlv(s).Ok? && ParseTlvs(ParseTlv(s).value.1).Ok?
    ensures ParseTlvs(s).value == [ParseTlv(s).value.0] + ParseTlvs(ParseTlv(s).value.1).value
  {
  }

  /** Encoding a list with one more record in front. */
  lemma EncodeTlvsCons(tlv: Tlv, pad: seq<uint8>, ts: seq<Tlv>, pads: seq<seq<uint8>>)
    requires WellFormed(tlv) && PadFits(tlv, pad) && AllWellFormed(ts) && PadsFit(ts, pads)
    ensures AllWellFormed([tlv] + ts) && PadsFit([tlv] + ts, [pad] + pads)
    ensures EncodeTlvs([tlv] + ts, [pad] + pads) == EncodeTlv(tlv, pad) + EncodeTlvs(ts, pads)
  {
    var all, allPads := [tlv] + ts, [pad] + pads;
    RecordsCons(tlv, ts);
    assert all[0] == tlv && all[1..] == ts && allPads[0] == pad && allPads[1..] == pads;
    forall i | 0 < i < |all| ensures PadFits(all[i], allPads[i]) {
      assert all[i] == ts[i - 1] && allPads[i] == pads[i - 1];
    }
  }

  /** The padding an accepted input carries, record by record. */
  lemma {:induction false} ParsedPads(s: seq<uint8>) returns (pads: seq<seq<uint8>>)
    ensures ParseTlvs(s).Ok? ==> PadsFit(ParseTlvs(s).value, pads) && EncodeTlvs(ParseTlvs(s).value, pads) == s
    decreases |s|
  {
    if ParseTlvs(s).Err? {
      pads := [];
    } else if s == [] {
      pads := [];
    } else {
      ParseTlvsFirst(s);
      var p := ParseTlv(s).value;
      var ts := ParseTlvs(p.1).value;
      EncodeParsedTlv(s);
      var pad := s[p.0.l..PaddedLen(p.0.l as nat)];
      var rest := ParsedPads(p.1);
      EncodeTlvsCons(p.0, pad, ts, rest);
      pads := [pad] + rest;
    }
  }

  /** The converse of the list round trip: every input the record list parser
      accepts is the encoding of the records it returns, for some padding. So
      no input with a record the decoder rejects (a length below 4, a cut
      record) is ever accepted. */
  lemma ParseTlvsIsEncoding(s: seq<uint8>)
    ensures ParseTlvs(s).Ok? ==>
              exists pads :: PadsFit(ParseTlvs(s).value, pads) && EncodeTlvs(ParseTlvs(s).value, pads) == s
  {
    var pads := ParsedPads(s);
  }
}
