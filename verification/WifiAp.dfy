/** The access point of arch/esp32s3/wifi_ap.c: its beacon and its station table, driven by received
    authentication and association frames (section 11.3 of IEEE 802.11-2016). */
module WifiAp {
  import opened MachineTypes
  import opened WifiElements

  const SLOTS := 8

  type Mac = m: seq<Octet> | |m| == 6 witness [0, 0, 0, 0, 0, 0]

  /** sta_info_t; state 0 is free, 1 authenticated, 2 associated. */
  datatype Station = Station(mac: Mac, aid: nat, state: nat)

  /** The frames the access point answers with. */
  datatype Response =
    | AuthResponse(mac: Mac)
    | AssocResponse(mac: Mac, aid: nat)

  /** The station table, and the responses sent so far. */
  datatype Table = Table(stations: seq<Station>, count: nat, log: seq<Response>)

  predicate Shaped(t: Table) {
    |t.stations| == SLOTS
  }

  // ---------- What one received frame does ----------

  function Little(frame: seq<Octet>, at: nat): nat
    requires at + 2 <= |frame|
  {
    frame[at] as nat + 0x100 * frame[at + 1] as nat
  }

  function Source(frame: seq<Octet>): Mac
    requires |frame| >= 24
  {
    frame[10..16]
  }

  predicate IsAuthRequest(frame: seq<Octet>) {
    && |frame| >= 30 && frame[0] as nat / 4 * 4 == 0xB0
    && Little(frame, 24) == 0 && Little(frame, 26) == 1
  }

  predicate IsAssocRequest(frame: seq<Octet>) {
    |frame| >= 28 && frame[0] as nat / 4 * 4 == 0x00
  }

  predicate Active(s: Station) {
    s.state > 0
  }

  /** find_station: the first active slot with the address, or the table size. */
  function Find(stations: seq<Station>, mac: Mac): (i: nat)
    ensures i <= |stations|
    ensures i < |stations| ==> Active(stations[i]) && stations[i].mac == mac
    ensures forall j :: 0 <= j < i ==> !(Active(stations[j]) && stations[j].mac == mac)
  {
    if stations == [] then 0
    else if Active(stations[0]) && stations[0].mac == mac then 0
    else 1 + Find(stations[1..], mac)
  }

  /** The first free slot, or the table size. */
  function FirstFree(stations: seq<Station>): (i: nat)
    ensures i <= |stations|
    ensures i < |stations| ==> !Active(stations[i])
    ensures forall j :: 0 <= j < i ==> Active(stations[j])
  {
    if stations == [] || !Active(stations[0]) then 0 else 1 + FirstFree(stations[1..])
  }

  function OnAuth(t: Table, mac: Mac): Table
    requires Shaped(t)
  {
    if Find(t.stations, mac) < SLOTS then
      t.(log := t.log + [AuthResponse(mac)])
    else
      var i := FirstFree(t.stations);
      if i < SLOTS then
        Table(t.stations[i := Station(mac, i + 1, 1)], t.count + 1, t.log + [AuthResponse(mac)])
      else t
  }

  function OnAssoc(t: Table, mac: Mac): Table
    requires Shaped(t)
  {
    var i := Find(t.stations, mac);
    if i < SLOTS && t.stations[i].state == 1 then
      t.(stations := t.stations[i := t.stations[i].(state := 2)],
         log := t.log + [AssocResponse(mac, t.stations[i].aid)])
    else t
  }

  function Step(t: Table, frame: seq<Octet>): (r: Table)
    requires Shaped(t)
    ensures Shaped(r)
  {
    if IsAuthRequest(frame) then OnAuth(t, Source(frame))
    else if IsAssocRequest(frame) then OnAssoc(t, Source(frame))
    else t
  }

  function Run(t: Table, frames: seq<seq<Octet>>): (r: Table)
    requires Shaped(t)
    ensures Shaped(r)
    decreases |frames|
  {
    if frames == [] then t else Run(Step(t, frames[0]), frames[1..])
  }

  predicate Fresh(t: Table) {
    Shaped(t) && t.count == 0 && t.log == [] && forall i :: 0 <= i < SLOTS ==> t.stations[i].state == 0
  }

  // ---------- The invariant ----------

  predicate Occupied(t: Table)
    requires Shaped(t)
  {
    t.count <= SLOTS && forall i :: 0 <= i < SLOTS ==> (Active(t.stations[i]) <==> i < t.count)
  }

  predicate Distinct(t: Table)
    requires Shaped(t) && t.count <= SLOTS
  {
    forall i, j :: 0 <= i < j < t.count ==> t.stations[i].mac != t.stations[j].mac
  }

  /** Slot `i` is in use properly: numbered, authenticated, and associated exactly if it was told so. */
  predicate SlotOk(s: Station, i: nat, log: seq<Response>) {
    && s.aid == i + 1 && 1 <= s.state <= 2
    && AuthResponse(s.mac) in log
    && (s.state == 2 <==> AssocResponse(s.mac, s.aid) in log)
  }

  /** Each association response in the log is unlike all before it and has its authentication earlier. */
  predicate LogOk(log: seq<Response>) {
    forall k :: 0 <= k < |log| && log[k].AssocResponse? ==>
      && AuthResponse(log[k].mac) in log[..k]
      && forall j :: 0 <= j < k && log[j].AssocResponse? ==> log[j].mac != log[k].mac && log[j].aid != log[k].aid
  }

  predicate SlotsOk(t: Table)
    requires Shaped(t) && t.count <= SLOTS
  {
    forall i :: 0 <= i < t.count ==> SlotOk(t.stations[i], i, t.log)
  }

  /** Every association response in the log names an occupied slot. */
  predicate Named(t: Table)
    requires Shaped(t) && t.count <= SLOTS
  {
    forall k :: 0 <= k < |t.log| && t.log[k].AssocResponse? ==>
      1 <= t.log[k].aid <= t.count && t.stations[t.log[k].aid - 1].mac == t.log[k].mac
  }

  predicate Inv(t: Table) {
    Shaped(t) && Occupied(t) && Distinct(t) && SlotsOk(t) && LogOk(t.log) && Named(t)
  }

  lemma FreshInv(t: Table)
    requires Fresh(t)
    ensures Inv(t)
  {}

  lemma LogGrows(log: seq<Response>, r: Response)
    requires LogOk(log)
    requires r.AssocResponse? ==>
      && AuthResponse(r.mac) in log
      && forall j :: 0 <= j < |log| && log[j].AssocResponse? ==> log[j].mac != r.mac && log[j].aid != r.aid
    ensures LogOk(log + [r])
  {
    var more := log + [r];
    forall k | 0 <= k < |more| && more[k].AssocResponse?
      ensures
        && AuthResponse(more[k].mac) in more[..k]
        && forall j :: 0 <= j < k && more[j].AssocResponse? ==>
             more[j].mac != more[k].mac && more[j].aid != more[k].aid
    {
      LogPrefix(log, r, k);
    }
  }

  lemma LogPrefix(log: seq<Response>, r: Response, k: nat)
    requires k <= |log|
    ensures (log + [r])[..k] == log[..k]
    ensures log[..|log|] == log
  {}

  lemma SlotOkGrows(s: Station, i: nat, log: seq<Response>, r: Response)
    requires SlotOk(s, i, log) && r != AssocResponse(s.mac, s.aid)
    ensures SlotOk(s, i, log + [r])
  {}

  lemma NamedGrows(t: Table, u: Table, r: Response)
    requires Shaped(t) && Shaped(u) && t.count <= u.count <= SLOTS && Named(t)
    requires forall i :: 0 <= i < t.count ==> u.stations[i].mac == t.stations[i].mac
    requires u.log == t.log + [r]
    requires r.AssocResponse? ==> 1 <= r.aid <= u.count && u.stations[r.aid - 1].mac == r.mac
    ensures Named(u)
  {
    forall k | 0 <= k < |u.log| && u.log[k].AssocResponse?
      ensures 1 <= u.log[k].aid <= u.count && u.stations[u.log[k].aid - 1].mac == u.log[k].mac
    {
      if k < |t.log| {
        assert u.log[k] == t.log[k];
      }
    }
  }

  /** The slot a newcomer gets is the one after the occupied ones. */
  lemma NextSlot(t: Table)
    requires Shaped(t) && Occupied(t) && FirstFree(t.stations) < SLOTS
    ensures FirstFree(t.stations) == t.count
  {
    FirstFreeIs(t.stations, t.count);
  }

  lemma {:induction false} FirstFreeIs(stations: seq<Station>, n: nat)
    requires n < |stations| && !Active(stations[n])
    requires forall j :: 0 <= j < n ==> Active(stations[j])
    ensures FirstFree(stations) == n
  {
    if n > 0 {
      FirstFreeIs(stations[1..], n - 1);
    }
  }

  lemma AuthAgain(t: Table, mac: Mac)
    requires Inv(t)
    ensures Inv(t.(log := t.log + [AuthResponse(mac)]))
  {
    hide LogOk, Named, SlotOk;
    var r := t.(log := t.log + [AuthResponse(mac)]);
    LogGrows(t.log, AuthResponse(mac));
    NamedGrows(t, r, AuthResponse(mac));
    forall i | 0 <= i < t.count ensures SlotOk(r.stations[i], i, r.log) {
      SlotOkGrows(t.stations[i], i, t.log, AuthResponse(mac));
    }
  }

  lemma Newcomer(t: Table, mac: Mac)
    requires Inv(t) && Find(t.stations, mac) == SLOTS && t.count < SLOTS
    ensures
      Inv(Table(t.stations[t.count := Station(mac, t.count + 1, 1)], t.count + 1, t.log + [AuthResponse(mac)]))
  {
    hide LogOk, Named, SlotOk;
    var log := t.log + [AuthResponse(mac)];
    var r := Table(t.stations[t.count := Station(mac, t.count + 1, 1)], t.count + 1, log);
    LogGrows(t.log, AuthResponse(mac));
    NamedGrows(t, r, AuthResponse(mac));
    forall i | 0 <= i < t.count
      ensures r.stations[i] == t.stations[i] && r.stations[i].mac != mac && SlotOk(r.stations[i], i, log)
    {
      assert Active(t.stations[i]);
      SlotOkGrows(t.stations[i], i, t.log, AuthResponse(mac));
    }
    NewSlotOk(t, mac);
  }

  lemma NewSlotOk(t: Table, mac: Mac)
    requires Inv(t) && t.count < SLOTS
    ensures SlotOk(Station(mac, t.count + 1, 1), t.count, t.log + [AuthResponse(mac)])
  {
    hide LogOk;
    var log := t.log + [AuthResponse(mac)];
    assert log[|t.log|] == AuthResponse(mac);
    assert AssocResponse(mac, t.count + 1) !in t.log;
  }

  lemma AuthKeeps(t: Table, mac: Mac)
    requires Inv(t)
    ensures Inv(OnAuth(t, mac))
  {
    hide Inv;
    if Find(t.stations, mac) < SLOTS {
      AuthAgain(t, mac);
    } else if FirstFree(t.stations) < SLOTS {
      assert Occupied(t) by { InvOccupied(t); }
      NextSlot(t);
      Newcomer(t, mac);
    }
  }

  lemma InvOccupied(t: Table)
    requires Inv(t)
    ensures Shaped(t) && Occupied(t)
  {}

  lemma Promote(t: Table, i: nat)
    requires Inv(t) && i < t.count && t.stations[i].state == 1
    ensures
      Inv(t.(stations := t.stations[i := t.stations[i].(state := 2)],
             log := t.log + [AssocResponse(t.stations[i].mac, t.stations[i].aid)]))
  {
    hide LogOk, Named, SlotOk;
    var s := t.stations[i];
    var answer := AssocResponse(s.mac, s.aid);
    var log := t.log + [answer];
    var r := t.(stations := t.stations[i := s.(state := 2)], log := log);
    SlotFacts(t, i);
    forall k | 0 <= k < |t.log| && t.log[k].AssocResponse?
      ensures t.log[k].mac != s.mac && t.log[k].aid != s.aid
    {
      NotYetAnswered(t, i, k);
    }
    LogGrows(t.log, answer);
    NamedGrows(t, r, answer);
    forall j | 0 <= j < t.count ensures SlotOk(r.stations[j], j, log) {
      if j != i {
        SlotFacts(t, j);
        SlotOkGrows(t.stations[j], j, t.log, answer);
      } else {
        Promoted(s, i, t.log);
      }
    }
  }

  lemma SlotFacts(t: Table, i: nat)
    requires Inv(t) && i < t.count
    ensures SlotOk(t.stations[i], i, t.log)
    ensures t.stations[i].aid == i + 1 && AuthResponse(t.stations[i].mac) in t.log
  {}

  lemma Promoted(s: Station, i: nat, log: seq<Response>)
    requires SlotOk(s, i, log)
    ensures SlotOk(s.(state := 2), i, log + [AssocResponse(s.mac, s.aid)])
  {
    var more := log + [AssocResponse(s.mac, s.aid)];
    assert more[|log|] == AssocResponse(s.mac, s.aid);
  }

  lemma NotYetAnswered(t: Table, i: nat, k: nat)
    requires Inv(t) && i < t.count && t.stations[i].state == 1
    requires k < |t.log| && t.log[k].AssocResponse?
    ensures t.log[k].mac != t.stations[i].mac && t.log[k].aid != t.stations[i].aid
  {
    hide LogOk;
    var j := t.log[k].aid - 1;
    assert SlotOk(t.stations[i], i, t.log) && SlotOk(t.stations[j], j, t.log);
    assert AssocResponse(t.log[k].mac, t.log[k].aid) in t.log;
  }

  lemma AssocKeeps(t: Table, mac: Mac)
    requires Inv(t)
    ensures Inv(OnAssoc(t, mac))
  {
    hide Inv;
    var i := Find(t.stations, mac);
    InvOccupied(t);
    if i < SLOTS && t.stations[i].state == 1 {
      Promote(t, i);
    }
  }

  lemma StepKeeps(t: Table, frame: seq<Octet>)
    requires Inv(t)
    ensures Inv(Step(t, frame))
  {
    hide Inv;
    InvOccupied(t);
    if IsAuthRequest(frame) {
      AuthKeeps(t, Source(frame));
    } else if IsAssocRequest(frame) {
      AssocKeeps(t, Source(frame));
    }
  }

  // ---------- Every sequence of received frames ----------

  lemma {:induction false} RunKeeps(t: Table, frames: seq<seq<Octet>>)
    requires Inv(t)
    ensures Inv(Run(t, frames))
    decreases |frames|
  {
    hide Inv, Step;
    InvOccupied(t);
    if frames != [] {
      StepKeeps(t, frames[0]);
      RunKeeps(Step(t, frames[0]), frames[1..]);
    }
  }

  /** After any frames: the occupied slots are the first `count`, their addresses differ, their
      association numbers are one more than their slots, and each station in the log of association
      responses was answered once, after it was authenticated, and is associated. */
  lemma TableSound(t: Table, frames: seq<seq<Octet>>)
    requires Fresh(t)
    ensures
      var r := Run(t, frames);
      && Occupied(r) && Distinct(r)
      && (forall i :: 0 <= i < r.count ==>
            && r.stations[i].aid == i + 1 && r.stations[i].state <= 2
            && (r.stations[i].state == 2 <==> AssocResponse(r.stations[i].mac, i + 1) in r.log))
      && LogOk(r.log)
  {
    FreshInv(t);
    RunKeeps(t, frames);
    var r := Run(t, frames);
    forall i | 0 <= i < r.count
      ensures r.stations[i].aid == i + 1 && r.stations[i].state <= 2
      ensures r.stations[i].state == 2 <==> AssocResponse(r.stations[i].mac, i + 1) in r.log
    {
      SlotFacts(r, i);
    }
  }

  /** No slot is ever given up: between any two moments of a run a slot keeps its station once it has
      one, its state never goes down, and nothing already answered is taken back. */
  predicate Later(t: Table, r: Table)
    requires Shaped(t) && Shaped(r)
  {
    && t.count <= r.count && t.log <= r.log
    && forall i :: 0 <= i < SLOTS ==>
         && t.stations[i].state <= r.stations[i].state
         && (Active(t.stations[i]) ==>
               r.stations[i].mac == t.stations[i].mac && r.stations[i].aid == t.stations[i].aid)
  }

  lemma StepLater(t: Table, frame: seq<Octet>)
    requires Inv(t)
    ensures Later(t, Step(t, frame))
    ensures forall i :: 0 <= i < SLOTS ==> Step(t, frame).stations[i].state <= t.stations[i].state + 1
  {
    hide LogOk, Named, Distinct;
    InvOccupied(t);
  }

  lemma {:induction false} RunLater(t: Table, frames: seq<seq<Octet>>)
    requires Inv(t)
    ensures Later(t, Run(t, frames))
    decreases |frames|
  {
    hide Inv, Step;
    InvOccupied(t);
    if frames != [] {
      StepLater(t, frames[0]);
      StepKeeps(t, frames[0]);
      RunLater(Step(t, frames[0]), frames[1..]);
    }
  }

  // ---------- The driver ----------

  function AuthFrame(mac: Mac, bssid: Mac): seq<Octet> {
    [0xB0, 0x00, 0x00, 0x00] + mac + bssid + bssid + [0x00, 0x00] +
    [0x00, 0x00] + [0x02, 0x00] + [0x00, 0x00]
  }

  function AssocFrame(mac: Mac, bssid: Mac, aid: Octet): seq<Octet> {
    [0x10, 0x00, 0x00, 0x00] + mac + bssid + bssid + [0x00, 0x00] +
    [0x01, 0x00] + [0x00, 0x00] + [aid, 0xC0]
  }

  function FrameOf(r: Response, bssid: Mac): seq<Octet> {
    match r
    case AuthResponse(mac) => AuthFrame(mac, bssid)
    case AssocResponse(mac, aid) => AssocFrame(mac, bssid, (aid % 0x100) as Octet)
  }

  /** What the frames sent say, at the places of section 9.3.3 of IEEE 802.11-2016: destination, source and BSSID,
      then for authentication the algorithm (open system, 0), the transaction (2) and the status (success, 0). */
  lemma AuthFrameFields(mac: Mac, bssid: Mac)
    ensures
      var f := AuthFrame(mac, bssid);
      && |f| == 30 && f[..4] == [0xB0, 0, 0, 0] && f[22..24] == [0, 0]
      && f[4..10] == mac && f[10..16] == bssid && f[16..22] == bssid
      && f[24..26] == LittleEndian(0, 2) && f[26..28] == LittleEndian(2, 2) && f[28..30] == LittleEndian(0, 2)
  {
    var head := [0xB0, 0x00, 0x00, 0x00] + mac + bssid + bssid;
    assert AuthFrame(mac, bssid)[..22] == head;
    assert head[4..10] == mac && head[10..16] == bssid && head[16..22] == bssid;
    TwoBytes(0);
    TwoBytes(2);
  }

  /** And for association the capabilities (ESS, 1), the status (success, 0), and the association number with its
      two top bits set. */
  lemma AssocFrameFields(mac: Mac, bssid: Mac, aid: Octet)
    ensures
      var f := AssocFrame(mac, bssid, aid);
      && |f| == 30 && f[..4] == [0x10, 0, 0, 0] && f[22..24] == [0, 0]
      && f[4..10] == mac && f[10..16] == bssid && f[16..22] == bssid
      && f[24..26] == LittleEndian(1, 2) && f[26..28] == LittleEndian(0, 2)
      && f[28..30] == LittleEndian(0xC000 + aid as nat, 2)
  {
    var head := [0x10, 0x00, 0x00, 0x00] + mac + bssid + bssid;
    assert AssocFrame(mac, bssid, aid)[..22] == head;
    assert head[4..10] == mac && head[10..16] == bssid && head[16..22] == bssid;
    TwoBytes(0);
    TwoBytes(1);
    TwoBytes(0xC000 + aid as nat);
  }

  lemma TwoBytes(n: nat)
    ensures LittleEndian(n, 2) == [(n % 0x100) as Octet, (n / 0x100 % 0x100) as Octet]
  {
    LittleEndianSplits(n, 2);
    LittleEndianSplits(n / 0x100, 1);
    assert LittleEndian(n / 0x100 / 0x100, 0) == [];
  }

  /** Which frames are requests: of at least 30 bytes, type authentication, algorithm 0, transaction 1; or of at
      least 28 bytes, type association request.  The two version bits do not matter. */
  lemma RequestFields(frame: seq<Octet>)
    ensures IsAuthRequest(frame) <==>
      && |frame| >= 30 && 0xB0 <= frame[0] <= 0xB3
      && frame[24..26] == LittleEndian(0, 2) && frame[26..28] == LittleEndian(1, 2)
    ensures IsAssocRequest(frame) <==> |frame| >= 28 && frame[0] <= 3
  {
    TwoBytes(0);
    TwoBytes(1);
    if |frame| >= 30 {
      assert frame[24..26] == [frame[24], frame[25]] && frame[26..28] == [frame[26], frame[27]];
    }
  }

  // ---------- Who is answered ----------

  /** Every authentication response in the log names an occupied slot. */
  ghost predicate AuthNamed(t: Table)
    requires Shaped(t)
  {
    forall mac: Mac :: AuthResponse(mac) in t.log ==> Find(t.stations, mac) < SLOTS
  }

  lemma StepAuthNamed(t: Table, frame: seq<Octet>)
    requires Inv(t) && AuthNamed(t)
    ensures AuthNamed(Step(t, frame))
  {
    hide Find, FirstFree, LogOk, Named, SlotsOk;
    if IsAuthRequest(frame) {
      AuthKeepsNamed(t, Source(frame));
    } else if IsAssocRequest(frame) {
      AssocKeepsNamed(t, Source(frame));
    }
  }

  lemma AuthKeepsNamed(t: Table, mac: Mac)
    requires Shaped(t) && AuthNamed(t)
    ensures AuthNamed(OnAuth(t, mac))
  {
    hide Find, FirstFree;
    var u := OnAuth(t, mac);
    forall m: Mac | AuthResponse(m) in u.log ensures Find(u.stations, m) < SLOTS {
      if AuthResponse(m) in t.log {
        StaysFound(t.stations, u.stations, m);
      } else {
        NowFound(t, mac);
      }
    }
  }

  lemma AssocKeepsNamed(t: Table, mac: Mac)
    requires Shaped(t) && AuthNamed(t)
    ensures AuthNamed(OnAssoc(t, mac))
  {
    hide Find, FirstFree;
    var u := OnAssoc(t, mac);
    forall m: Mac | AuthResponse(m) in u.log ensures Find(u.stations, m) < SLOTS {
      assert AuthResponse(m) in t.log;
      StaysFound(t.stations, u.stations, m);
    }
  }

  /** A station that is found is found again as long as no active slot is given up. */
  lemma StaysFound(before: seq<Station>, after: seq<Station>, mac: Mac)
    requires |before| == |after| == SLOTS && Find(before, mac) < SLOTS
    requires forall i :: 0 <= i < SLOTS && Active(before[i]) ==> Active(after[i]) && after[i].mac == before[i].mac
    ensures Find(after, mac) < SLOTS
  {
    var i := Find(before, mac);
    assert Active(before[i]);
  }

  lemma NowFound(t: Table, mac: Mac)
    requires Shaped(t) && OnAuth(t, mac).log != t.log
    ensures Find(OnAuth(t, mac).stations, mac) < SLOTS
  {
    var u := OnAuth(t, mac);
    if Find(t.stations, mac) == SLOTS {
      var i := FirstFree(t.stations);
      assert Active(u.stations[i]) && u.stations[i].mac == mac;
    }
  }

  lemma {:induction false} RunAuthNamed(t: Table, frames: seq<seq<Octet>>)
    requires Inv(t) && AuthNamed(t)
    ensures Inv(Run(t, frames)) && AuthNamed(Run(t, frames))
    decreases |frames|
  {
    hide Step, AuthNamed, LogOk, Named, SlotsOk, Distinct, Occupied;
    if frames != [] {
      StepKeeps(t, frames[0]);
      StepAuthNamed(t, frames[0]);
      RunAuthNamed(Step(t, frames[0]), frames[1..]);
    }
  }

  /** After any frames: an authentication request is answered exactly if its sender was answered before or a
      slot is free; an association request exactly if its sender was answered an authentication and no
      association yet, and then with the number of its slot; and nothing else is answered. */
  lemma AnsweredIff(t: Table, frames: seq<seq<Octet>>, frame: seq<Octet>)
    requires Fresh(t)
    ensures
      var r := Run(t, frames);
      var u := Step(r, frame);
      Inv(r) &&
      if IsAuthRequest(frame) then
        var mac := Source(frame);
        u.log == if AuthResponse(mac) in r.log || r.count < 8 then r.log + [AuthResponse(mac)] else r.log
      else if IsAssocRequest(frame) then
        var mac := Source(frame);
        if AuthResponse(mac) in r.log && (forall a: nat :: AssocResponse(mac, a) !in r.log) then
          exists i :: 0 <= i < r.count && r.stations[i].mac == mac && u.log == r.log + [AssocResponse(mac, i + 1)]
        else u.log == r.log
      else u == r
  {
    hide LogOk, Run, Named, SlotsOk, OnAuth, OnAssoc, AuthNamed;
    FreshInv(t);
    FreshAuthNamed(t);
    RunAuthNamed(t, frames);
    var r := Run(t, frames);
    if IsAuthRequest(frame) {
      AuthAnswered(r, Source(frame));
    } else if IsAssocRequest(frame) {
      AssocAnswered(r, Source(frame));
    }
  }

  lemma FreshAuthNamed(t: Table)
    requires Fresh(t)
    ensures AuthNamed(t)
  {}

  lemma AuthAnswered(t: Table, mac: Mac)
    requires Inv(t) && AuthNamed(t)
    ensures OnAuth(t, mac).log ==
      if AuthResponse(mac) in t.log || t.count < 8 then t.log + [AuthResponse(mac)] else t.log
  {
    hide LogOk, Named;
    var i := Find(t.stations, mac);
    if i < SLOTS {
      SlotFacts(t, i);
    }
    if t.count < SLOTS {
      assert !Active(t.stations[t.count]);
      NextSlot(t);
    }
  }

  lemma AssocAnswered(t: Table, mac: Mac)
    requires Inv(t) && AuthNamed(t)
    ensures
      if AuthResponse(mac) in t.log && (forall a: nat :: AssocResponse(mac, a) !in t.log) then
        exists i :: 0 <= i < t.count && t.stations[i].mac == mac &&
          OnAssoc(t, mac).log == t.log + [AssocResponse(mac, i + 1)]
      else OnAssoc(t, mac).log == t.log
  {
    hide LogOk;
    var i := Find(t.stations, mac);
    if i < SLOTS {
      SlotFacts(t, i);
      assert t.stations[i].mac == mac;
    }
  }

  class AccessPoint {
    const stations: array<Station>
    const bssid: Mac
    var staCount: nat
    var apSsid: Body
    var apChannel: Octet
    var beaconSeq: nat
    /** The frames passed to wifi_tx_raw. */
    var sent: seq<seq<Octet>>
    ghost var log: seq<Response>

    ghost function Model(): (t: Table)
      reads this, stations
    {
      Table(stations[..], staCount, log)
    }

    ghost predicate Valid()
      reads this, stations
    {
      stations.Length == SLOTS && |apSsid| <= SSID_SIZE && Inv(Model())
    }

    constructor (address: Mac)
      ensures Valid() && Fresh(Model()) && bssid == address && sent == [] && fresh(stations)
    {
      stations := new Station[SLOTS](_ => Station([0, 0, 0, 0, 0, 0], 0, 0));
      bssid := address;
      staCount, apSsid, apChannel, beaconSeq := 0, [], 6, 0;
      sent, log := [], [];
      new;
      FreshInv(Model());
    }

    /** wifi_ap_init: names longer than 32 bytes are cut. */
    method Init(ssid: seq<Octet>, channel: Octet)
      requires stations.Length == SLOTS
      modifies this, stations
      ensures Valid() && Fresh(Model())
      ensures apSsid == (if |ssid| > SSID_SIZE then ssid[..SSID_SIZE] else ssid) && apChannel == channel
    {
      apSsid := if |ssid| > SSID_SIZE then ssid[..SSID_SIZE] else ssid;
      apChannel := channel;
      for i := 0 to SLOTS
        invariant forall k :: 0 <= k < i ==> stations[k].state == 0
        invariant apSsid == (if |ssid| > SSID_SIZE then ssid[..SSID_SIZE] else ssid) && apChannel == channel
      {
        stations[i] := stations[i].(state := 0);
      }
      staCount := 0;
      log := [];
      FreshInv(Model());
    }

    /** find_station */
    method FindStation(mac: Mac) returns (i: nat)
      requires stations.Length == SLOTS
      ensures i == Find(stations[..], mac)
    {
      i := 0;
      while i < SLOTS
        invariant i <= SLOTS
        invariant Find(stations[..], mac) == i + Find(stations[i..], mac)
      {
        assert stations[i..][1..] == stations[i + 1..];
        if stations[i].state > 0 && stations[i].mac == mac { return; }
        i := i + 1;
      }
    }

    /** add_station */
    method AddStation(mac: Mac) returns (i: nat)
      requires stations.Length == SLOTS
      modifies this`staCount, stations
      ensures i == FirstFree(old(stations[..]))
      ensures i < SLOTS ==>
        stations[..] == old(stations[..])[i := Station(mac, i + 1, 1)] && staCount == old(staCount) + 1
      ensures i == SLOTS ==> stations[..] == old(stations[..]) && staCount == old(staCount)
    {
      i := 0;
      while i < SLOTS
        invariant i <= SLOTS && stations[..] == old(stations[..]) && staCount == old(staCount)
        invariant FirstFree(stations[..]) == i + FirstFree(stations[i..])
      {
        assert stations[i..][1..] == stations[i + 1..];
        if stations[i].state == 0 {
          stations[i] := Station(mac, i + 1, 1);
          staCount := staCount + 1;
          return;
        }
        i := i + 1;
      }
    }

    /** wifi_ap_handle_auth */
    method HandleAuth(frame: seq<Octet>)
      requires Valid() && |frame| >= 24 && frame[0] as nat / 4 * 4 == 0xB0
      modifies this, stations
      ensures Valid() && Model() == Step(old(Model()), frame)
      ensures sent == old(sent) + Answers(old(log), log, bssid)
      ensures apSsid == old(apSsid) && apChannel == old(apChannel)
    {
      hide Inv, Find, FirstFree, AuthFrame, AssocFrame;
      StepKeeps(Model(), frame);
      if |frame| < 30 { return; }
      var mac := frame[10..16];
      if Little(frame, 24) != 0 || Little(frame, 26) != 1 { return; }
      var sta := FindStation(mac);
      if sta == SLOTS {
        sta := AddStation(mac);
      }
      if sta == SLOTS { return; }
      log := log + [AuthResponse(mac)];
      sent := sent + [AuthFrame(mac, bssid)];
    }

    /** wifi_ap_handle_assoc */
    method HandleAssoc(frame: seq<Octet>)
      requires Valid() && |frame| >= 24 && frame[0] as nat / 4 * 4 == 0x00
      modifies this, stations
      ensures Valid() && Model() == Step(old(Model()), frame)
      ensures sent == old(sent) + Answers(old(log), log, bssid)
      ensures apSsid == old(apSsid) && apChannel == old(apChannel)
    {
      hide Inv, Find, FirstFree, AuthFrame, AssocFrame;
      StepKeeps(Model(), frame);
      if |frame| < 28 { return; }
      var mac := frame[10..16];
      var sta := FindStation(mac);
      if sta == SLOTS || stations[sta].state != 1 { return; }
      stations[sta] := stations[sta].(state := 2);
      log := log + [AssocResponse(mac, stations[sta].aid)];
      sent := sent + [AssocFrame(mac, bssid, (stations[sta].aid % 0x100) as Octet)];
    }

    /** wifi_ap_process_frame: the table and the log take one step of the model, and the answer, if the
        step gives one, is sent. */
    method ProcessFrame(frame: seq<Octet>)
      requires Valid()
      modifies this, stations
      ensures Valid() && Model() == Step(old(Model()), frame)
      ensures sent == old(sent) + Answers(old(log), log, bssid)
      ensures apSsid == old(apSsid) && apChannel == old(apChannel)
    {
      hide Inv, OnAuth, OnAssoc;
      if |frame| < 24 { return; }
      var frameType := frame[0] as nat / 4 * 4;
      if frameType == 0xB0 {
        HandleAuth(frame);
      } else if frameType == 0x00 {
        HandleAssoc(frame);
      }
    }

    /** wifi_ap_send_beacon.  The frame fits the 128-byte buffer it is built in. */
    method SendBeacon()
      requires Valid()
      modifies this`beaconSeq, this`sent
      ensures Valid() && beaconSeq == old(beaconSeq) + 1
      ensures sent == old(sent) + [Beacon(bssid, old(beaconSeq), apSsid, apChannel)]
      ensures |Beacon(bssid, old(beaconSeq), apSsid, apChannel)| <= 128
    {
      hide Inv;
      var beacon: seq<Octet> := [0x80, 0x00, 0x00, 0x00];
      beacon := beacon + [0xFF, 0xFF, 0xFF, 0xFF, 0xFF, 0xFF];
      beacon := beacon + bssid;
      beacon := beacon + bssid;
      beacon := beacon + [(beaconSeq % 0x100) as Octet, (beaconSeq / 0x100 % 0x10) as Octet];
      beacon := beacon + [0x00, 0x00, 0x00, 0x00, 0x00, 0x00, 0x00, 0x00];
      beacon := beacon + [0x64, 0x00];
      beacon := beacon + [0x01, 0x00];
      var elements: seq<Octet> := [0x00, |apSsid| as Octet] + apSsid;
      elements := elements + [0x01, 0x08, 0x82, 0x84, 0x8B, 0x96, 0x0C, 0x12, 0x18, 0x24];
      elements := elements + [0x03, 0x01, apChannel];
      elements := elements + [0x05, 0x04, 0x00, 0x01, 0x00, 0x00];
      BeaconBytes(apSsid, apChannel);
      assert elements == Serialize(BeaconElements(apSsid, apChannel));
      sent := sent + [beacon + elements];
      beaconSeq := beaconSeq + 1;
    }
  }

  /** The frames sent for the responses added to the log. */
  function Answers(before: seq<Response>, after: seq<Response>, bssid: Mac): seq<seq<Octet>> {
    if |after| > |before| then [FrameOf(after[|before|], bssid)] else []
  }

  lemma BeaconBytes(ssid: Body, channel: Octet)
    ensures Serialize(BeaconElements(ssid, channel)) ==
      [0x00, |ssid| as Octet] + ssid + [0x01, 0x08, 0x82, 0x84, 0x8B, 0x96, 0x0C, 0x12, 0x18, 0x24] +
      [0x03, 0x01, channel] + [0x05, 0x04, 0x00, 0x01, 0x00, 0x00]
  {
    var es := BeaconElements(ssid, channel);
    assert es[1..] == [es[1], es[2], es[3]] && es[1..][1..] == [es[2], es[3]] && es[1..][1..][1..] == [es[3]];
    assert Serialize([es[3]]) == Encode(es[3]);
    assert Serialize([es[2], es[3]]) == Encode(es[2]) + Encode(es[3]);
    assert Serialize(es[1..]) == Encode(es[1]) + (Encode(es[2]) + Encode(es[3]));
  }
}
