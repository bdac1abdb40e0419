/** 802.11 information elements (section 9.4.2.1 of IEEE 802.11-2016): the scan parser of
    arch/esp32s3/wifi_sta.c and the beacon builder of arch/esp32s3/wifi_ap.c. */
module WifiElements {
  import opened MachineTypes

  /** An element body is at most 255 bytes. */
  type Body = b: seq<Octet> | |b| <= 255

  datatype Element = Element(id: Octet, body: Body)

  /** Type, length, value. */
  function Encode(e: Element): (b: seq<Octet>)
    ensures |b| == 2 + |e.body|
  {
    [e.id, |e.body| as Octet] + e.body
  }

  function Serialize(es: seq<Element>): seq<Octet> {
    if es == [] then [] else Encode(es[0]) + Serialize(es[1..])
  }

  /** A whole element stands at the front. */
  predicate Fits(b: seq<Octet>) {
    |b| >= 2 && 2 + b[1] as nat <= |b|
  }

  function Front(b: seq<Octet>): (e: Element)
    requires Fits(b)
    ensures |e.body| == b[1] as nat
  {
    Element(b[0], b[2..2 + b[1] as nat])
  }

  /** The elements a reader of `b` meets before the first one that does not fit. */
  function Visited(b: seq<Octet>): (es: seq<Element>)
    decreases |b|
  {
    if !Fits(b) then [] else [Front(b)] + Visited(b[2 + b[1] as nat..])
  }

  lemma FrontOfEncoded(e: Element, rest: seq<Octet>)
    ensures
      var b := Encode(e) + rest;
      Fits(b) && Front(b) == e && b[1] as nat == |e.body| && b[2 + |e.body|..] == rest
  {
    var b := Encode(e) + rest;
    assert b[2..2 + |e.body|] == e.body;
  }

  lemma FrontVisited(e: Element, rest: seq<Octet>)
    ensures Visited(Encode(e) + rest) == [e] + Visited(rest)
  {
    hide Fits, Front, Encode;
    FrontOfEncoded(e, rest);
  }

  lemma SerializeFront(es: seq<Element>, rest: seq<Octet>)
    requires es != []
    ensures Serialize(es) + rest == Encode(es[0]) + (Serialize(es[1..]) + rest)
  {
    hide Encode;
  }

  lemma AppendFront(es: seq<Element>, tail: seq<Element>)
    requires es != []
    ensures es + tail == [es[0]] + (es[1..] + tail)
  {}

  lemma NothingSerialized(rest: seq<Octet>)
    ensures Serialize([]) + rest == rest
    ensures [] + Visited(rest) == Visited(rest)
  {}

  /** Reading undoes writing, whatever follows. */
  lemma {:induction false} VisitedSerialized(es: seq<Element>, rest: seq<Octet>)
    ensures Visited(Serialize(es) + rest) == es + Visited(rest)
  {
    hide Visited, Encode, Serialize;
    if es == [] {
      NothingSerialized(rest);
    } else {
      SerializeFront(es, rest);
      FrontVisited(es[0], Serialize(es[1..]) + rest);
      VisitedSerialized(es[1..], rest);
      AppendFront(es, Visited(rest));
    }
  }

  /** On arbitrary bytes the elements visited are those that make up the longest well-formed prefix. */
  lemma {:induction false} VisitedIsPrefix(b: seq<Octet>)
    ensures Serialize(Visited(b)) <= b
    ensures !Fits(b[|Serialize(Visited(b))|..])
    decreases |b|
  {
    if Fits(b) {
      var n := 2 + b[1] as nat;
      var tail := Serialize(Visited(b[n..]));
      VisitedIsPrefix(b[n..]);
      assert Visited(b)[1..] == Visited(b[n..]);
      FrontEncoded(b);
      assert b == b[..n] + b[n..];
      assert Serialize(Visited(b)) == b[..n] + tail;
      assert b[n..][|tail|..] == b[n + |tail|..];
    } else {
      assert b[0..] == b;
    }
  }

  lemma FrontEncoded(b: seq<Octet>)
    requires Fits(b)
    ensures Encode(Front(b)) == b[..2 + b[1] as nat]
  {}

  // ---------- Scan results ----------

  const SSID_SIZE := 32

  /** scan_result_t */
  datatype ScanResult = ScanResult(
    ssid: seq<Octet>, ssidLen: Octet, bssid: seq<Octet>, channel: Octet, rssi: int, authMode: Octet)

  predicate ResultShaped(r: ScanResult) {
    |r.ssid| == 32 && |r.bssid| == 6
  }

  /** What one element does to the result.  An SSID longer than the field is recorded with its full
      length but only its first 32 bytes; bytes of the field it does not reach keep their old value. */
  function Apply(r: ScanResult, e: Element): (t: ScanResult)
    requires ResultShaped(r)
    ensures ResultShaped(t)
  {
    if e.id == 0 then
      var n := if |e.body| < SSID_SIZE then |e.body| else SSID_SIZE;
      r.(ssidLen := |e.body| as Octet, ssid := e.body[..n] + r.ssid[n..])
    else if e.id == 48 then r.(authMode := 2)
    else if e.id == 221 && |e.body| >= 4 && e.body[0] == 0x00 && e.body[1] == 0x50 && e.body[2] == 0xF2 then
      r.(authMode := 1)
    else r
  }

  function ApplyAll(r: ScanResult, es: seq<Element>): (t: ScanResult)
    requires ResultShaped(r)
    ensures ResultShaped(t)
    decreases |es|
  {
    if es == [] then r else ApplyAll(Apply(r, es[0]), es[1..])
  }

  /** What an element says about security: RSN means WPA2 (2), the vendor element of Microsoft means WPA (1). */
  function Security(e: Element): Option<Octet> {
    if e.id == 48 then Some(2)
    else if e.id == 221 && |e.body| >= 4 && e.body[..3] == [0x00, 0x50, 0xF2] then Some(1)
    else None
  }

  /** The last element that says something about security, or the last network name. */
  function LastSecurity(es: seq<Element>): Option<Octet> {
    if es == [] then None
    else
      var n := |es| - 1;
      if Security(es[n]).Some? then Security(es[n]) else LastSecurity(es[..n])
  }

  function LastName(es: seq<Element>): Option<Body> {
    if es == [] then None
    else
      var n := |es| - 1;
      if es[n].id == 0 then Some(es[n].body) else LastName(es[..n])
  }

  /** The name the result holds, as far as its field goes. */
  predicate Names(r: ScanResult, name: Body)
    requires ResultShaped(r)
  {
    r.ssidLen as nat == |name| && forall k :: 0 <= k < |name| && k < 32 ==> r.ssid[k] == name[k]
  }

  lemma {:induction false} ApplyAllAppend(r: ScanResult, es: seq<Element>, e: Element)
    requires ResultShaped(r)
    ensures ApplyAll(r, es + [e]) == Apply(ApplyAll(r, es), e)
    decreases |es|
  {
    hide Apply;
    if es == [] {
      assert [] + [e] == [e] && [e][1..] == [];
    } else {
      assert (es + [e])[1..] == es[1..] + [e];
      ApplyAllAppend(Apply(r, es[0]), es[1..], e);
    }
  }

  /** Of any elements the last network name and the last word on security count; everything else stays. */
  lemma {:induction false} LastWordCounts(r: ScanResult, es: seq<Element>)
    requires ResultShaped(r)
    ensures
      var t := ApplyAll(r, es);
      && t.authMode == (match LastSecurity(es) case None => r.authMode case Some(mode) => mode)
      && (match LastName(es)
          case None => t.ssid == r.ssid && t.ssidLen == r.ssidLen
          case Some(name) => Names(t, name))
      && t.bssid == r.bssid && t.channel == r.channel && t.rssi == r.rssi
    decreases |es|
  {
    if es != [] {
      var n := |es| - 1;
      LastWordCounts(r, es[..n]);
      assert es[..n] + [es[n]] == es;
      ApplyAllAppend(r, es[..n], es[n]);
      OneWord(ApplyAll(r, es[..n]), es[n]);
    }
  }

  lemma OneWord(r: ScanResult, e: Element)
    requires ResultShaped(r)
    ensures
      var t := Apply(r, e);
      && t.authMode == (match Security(e) case None => r.authMode case Some(mode) => mode)
      && (if e.id == 0 then Names(t, e.body) else t.ssid == r.ssid && t.ssidLen == r.ssidLen)
      && t.bssid == r.bssid && t.channel == r.channel && t.rssi == r.rssi
  {
    if e.id == 221 && |e.body| >= 4 {
      assert e.body[..3] == [e.body[0], e.body[1], e.body[2]];
    }
  }

  /** The SSID copy: at most as many bytes as the field holds. */
  method CopySsid(body: seq<Octet>, field: seq<Octet>) returns (ssid: seq<Octet>)
    requires |field| == SSID_SIZE
    ensures var n := if |body| < SSID_SIZE then |body| else SSID_SIZE; ssid == body[..n] + field[n..]
  {
    ssid := field;
    var i := 0;
    while i < |body| && i < SSID_SIZE
      invariant i <= |body| && i <= SSID_SIZE && |ssid| == SSID_SIZE
      invariant ssid == body[..i] + field[i..]
    {
      ssid := ssid[i := body[i]];
      i := i + 1;
    }
  }

  /** The body of the parsing loop. */
  method ApplyElement(id: Octet, body: Body, before: ScanResult) returns (result: ScanResult)
    requires ResultShaped(before)
    ensures result == Apply(before, Element(id, body))
  {
    result := before;
    var len := |body|;
    if id == 0 {
      var ssid := CopySsid(body, result.ssid);
      result := result.(ssidLen := len as Octet, ssid := ssid);
    } else if id == 48 {
      result := result.(authMode := 2);
    } else if id == 221 {
      if len >= 4 && body[0] == 0x00 && body[1] == 0x50 && body[2] == 0xF2 {
        result := result.(authMode := 1);
      }
    }
  }

  /** The parsing loop of wifi_scan_start: it terminates, stays inside the frame, and folds the visited
      elements into the result in order. */
  method ParseElements(ie: seq<Octet>, initial: ScanResult) returns (result: ScanResult)
    requires ResultShaped(initial)
    ensures result == ApplyAll(initial, Visited(ie))
  {
    hide Visited, Apply;
    result := initial;
    var ieLen := |ie|;
    var pos := 0;
    while pos + 1 < ieLen
      invariant pos <= ieLen
      invariant ResultShaped(result)
      invariant ApplyAll(initial, Visited(ie)) == ApplyAll(result, Visited(ie[pos..]))
    {
      var id, len := ie[pos], ie[pos + 1] as nat;
      if pos + 2 + len > ieLen { break; }
      VisitedFrom(ie, pos);
      result := ApplyElement(id, ie[pos + 2..pos + 2 + len], result);
      pos := pos + 2 + len;
    }
    VisitedEnd(ie[pos..]);
  }

  lemma VisitedEnd(b: seq<Octet>)
    requires !Fits(b)
    ensures Visited(b) == []
  {}

  lemma VisitedFrom(ie: seq<Octet>, pos: nat)
    requires pos + 1 < |ie| && pos + 2 + ie[pos + 1] as nat <= |ie|
    ensures
      var n := ie[pos + 1] as nat;
      var es := Visited(ie[pos..]);
      es != [] && es[0] == Element(ie[pos], ie[pos + 2..pos + 2 + n]) && es[1..] == Visited(ie[pos + 2 + n..])
  {
    var rest, n := ie[pos..], ie[pos + 1] as nat;
    assert rest[2 + n..] == ie[pos + 2 + n..];
    assert rest[2..2 + n] == ie[pos + 2..pos + 2 + n];
  }

  /** What wifi_scan_start makes of one received frame: frames that are too short or not probe responses
      are skipped, and nothing is taken once sixteen results are held.  A result keeps whatever an
      earlier scan left in the fields the frame does not set. */
  class Scanner {
    const results: array<ScanResult>
    var count: nat

    ghost predicate Valid()
      reads this, results
    {
      results.Length == 16 && count <= 16 && forall i :: 0 <= i < 16 ==> ResultShaped(results[i])
    }

    constructor ()
      ensures Valid() && count == 0 && fresh(results)
    {
      results := new ScanResult[16](_ => ScanResult(seq(SSID_SIZE, _ => 0), 0, [0, 0, 0, 0, 0, 0], 0, 0, 0));
      count := 0;
    }

    method ProcessFrame(frame: seq<Octet>, ch: Octet) returns (goOn: bool)
      requires Valid()
      modifies this, results
      ensures Valid()
      ensures IsProbeResponse(frame) && old(count) < 16 ==>
        && count == old(count) + 1
        && results[..] == old(results[..])[old(count) := Heard(old(results[count]), frame, ch)]
      ensures !IsProbeResponse(frame) || old(count) == 16 ==>
        count == old(count) && results[..] == old(results[..])
      ensures goOn <==> !IsProbeResponse(frame) || old(count) < 16
    {
      hide ApplyAll, Visited;
      if |frame| < 36 { return true; }
      if frame[0] != 0x50 { return true; }
      if count >= 16 { return false; }
      var result := results[count].(bssid := frame[16..22], channel := ch, rssi := -50);
      result := ParseElements(frame[36..], result);
      results[count] := result;
      count := count + 1;
      goOn := true;
    }
  }

  predicate IsProbeResponse(frame: seq<Octet>) {
    |frame| >= 36 && frame[0] == 0x50
  }

  /** The entry a probe response leaves in the result slot that held `before`. */
  function Heard(before: ScanResult, frame: seq<Octet>, ch: Octet): (r: ScanResult)
    requires ResultShaped(before) && IsProbeResponse(frame)
    ensures ResultShaped(r)
  {
    ApplyAll(before.(bssid := frame[16..22], channel := ch, rssi := -50), Visited(frame[36..]))
  }

  // ---------- The access point's beacon ----------

  const RATES: Body := [0x82, 0x84, 0x8B, 0x96, 0x0C, 0x12, 0x18, 0x24]

  function BeaconElements(ssid: Body, channel: Octet): seq<Element> {
    [Element(0, ssid), Element(1, RATES), Element(3, [channel]), Element(5, [0x00, 0x01, 0x00, 0x00])]
  }

  /** Header and fixed fields. */
  function BeaconHeader(bssid: seq<Octet>, sequence: nat): (b: seq<Octet>)
    requires |bssid| == 6
    ensures |b| == 36
  {
    [0x80, 0x00, 0x00, 0x00] + [0xFF, 0xFF, 0xFF, 0xFF, 0xFF, 0xFF] + bssid + bssid +
    [(sequence % 0x100) as Octet, (sequence / 0x100 % 0x10) as Octet] +
    [0x00, 0x00, 0x00, 0x00, 0x00, 0x00, 0x00, 0x00] + [0x64, 0x00] + [0x01, 0x00]
  }

  function Beacon(bssid: seq<Octet>, sequence: nat, ssid: Body, channel: Octet): (b: seq<Octet>)
    requires |bssid| == 6
    ensures |b| >= 36
  {
    BeaconHeader(bssid, sequence) + Serialize(BeaconElements(ssid, channel))
  }

  lemma BeaconVisited(bssid: seq<Octet>, sequence: nat, ssid: Body, channel: Octet)
    requires |bssid| == 6
    ensures Visited(Beacon(bssid, sequence, ssid, channel)[36..]) == BeaconElements(ssid, channel)
  {
    hide Visited, Serialize, BeaconElements, BeaconHeader;
    var es := BeaconElements(ssid, channel);
    VisitedSerialized(es, []);
    VisitedEnd([]);
    assert Serialize(es) + [] == Serialize(es) && es + [] == es;
    assert Beacon(bssid, sequence, ssid, channel)[36..] == Serialize(es);
  }

  /** The scanner reads back the network name of the beacon's elements for every name of up to 32 bytes,
      and only for those: a longer name is cut to 32 bytes but recorded with its full length. */
  lemma BeaconNameReadBack(r: ScanResult, bssid: seq<Octet>, sequence: nat, ssid: Body, channel: Octet)
    requires ResultShaped(r) && |bssid| == 6
    ensures
      var t := ApplyAll(r, Visited(Beacon(bssid, sequence, ssid, channel)[36..]));
      && t.ssidLen as nat == |ssid|
      && (|ssid| <= SSID_SIZE ==> t.ssid[..|ssid|] == ssid)
      && (|ssid| > SSID_SIZE ==> t.ssidLen as nat > |t.ssid|)
      && t.authMode == r.authMode
  {
    hide Visited;
    BeaconVisited(bssid, sequence, ssid, channel);
    var es := BeaconElements(ssid, channel);
    var first := Apply(r, es[0]);
    assert es[1..] == [es[1], es[2], es[3]] && es[1..][1..] == [es[2], es[3]] && es[1..][1..][1..] == [es[3]];
    assert ApplyAll(first, [es[3]]) == first;
    assert ApplyAll(first, [es[2], es[3]]) == first;
    assert ApplyAll(first, es[1..]) == first;
  }

  /** A frame with the beacon's contents is taken only when it comes as a probe response; then the new
      result names the network, its address and the channel scanned. */
  lemma ScanFindsAccessPoint(r: ScanResult, bssid: seq<Octet>, sequence: nat, ssid: Body, channel: Octet, ch: Octet)
    requires ResultShaped(r) && |bssid| == 6 && |ssid| <= SSID_SIZE
    ensures !IsProbeResponse(Beacon(bssid, sequence, ssid, channel))
    ensures
      var response := Beacon(bssid, sequence, ssid, channel)[0 := 0x50];
      && IsProbeResponse(response)
      && var t := Heard(r, response, ch);
         t.ssidLen as nat == |ssid| && t.ssid[..|ssid|] == ssid && t.bssid == bssid && t.channel == ch
  {
    hide Visited, ApplyAll, Serialize;
    var beacon := Beacon(bssid, sequence, ssid, channel);
    assert beacon[0] == 0x80;
    var response := beacon[0 := 0x50];
    assert response[36..] == beacon[36..];
    assert response[16..22] == bssid;
    var start := r.(bssid := bssid, channel := ch, rssi := -50);
    BeaconNameReadBack(start, bssid, sequence, ssid, channel);
    AddressKept(start, Visited(beacon[36..]));
  }

  lemma {:induction false} AddressKept(r: ScanResult, es: seq<Element>)
    requires ResultShaped(r)
    ensures ApplyAll(r, es).bssid == r.bssid && ApplyAll(r, es).channel == r.channel
    decreases |es|
  {
    if es != [] {
      AddressKept(Apply(r, es[0]), es[1..]);
    }
  }
}
