/** Connections kept alive between transfers: which slot holds which socket. */
module KeepAlive {
  import opened Wrappers

  /** LOCAL_SOCKET_ID stands for a file that is read as if it came from a socket. */
  datatype Soc = NoSoc | Local | Sock(id: nat)

  /** A slot is free, keeps an idle connection, holds a finished transfer, or works.
      FTP workers own their slots and are not here. */
  datatype Status = Free | Alive | Ready | Busy

  /** The connection part of a slot. */
  datatype Conn = Conn(status: Status, addr: string, soc: Soc, statuscode: int, isFile: bool, trailers: bool,
                       keepAlive: bool, kaMax: int, kaT: int, kaStart: int)

  const HTTP_OK := 200

  /** A cleared slot: zeroed, but for the status and the socket. */
  const CLEARED := Conn(Free, "", NoSoc, 0, false, false, false, 0, 0, 0)

  /** The slots, and the sockets open in the system. */
  datatype Net = Net(slots: seq<Conn>, open: set<nat>)

  /** The options and the world around one call. */
  datatype World = World(noKeepAlive: bool, maxconn: real, now: int, sockOk: nat -> bool, verified: nat -> bool)

  // ---- what every state satisfies ----

  function Held(slots: seq<Conn>): set<nat> {
    set i | 0 <= i < |slots| && slots[i].soc.Sock? :: slots[i].soc.id
  }

  ghost predicate Distinct(slots: seq<Conn>) {
    forall i, j :: 0 <= i < j < |slots| && slots[i].soc.Sock? && slots[j].soc.Sock? ==>
      slots[i].soc.id != slots[j].soc.id
  }

  ghost predicate ConnOk(c: Conn) {
    (c.status == Free ==> c.soc == NoSoc && !c.isFile) && (c.isFile ==> !c.soc.Sock?)
  }

  /** Each open socket is held by exactly one slot, and a slot holds none but open
      ones: nothing leaks, and nothing is closed twice. */
  ghost predicate NetOk(n: Net) {
    && (forall i :: 0 <= i < |n.slots| ==> ConnOk(n.slots[i]))
    && Distinct(n.slots) && Held(n.slots) == n.open
  }

  // ---- the moves of a socket ----

  function Closed(open: set<nat>, soc: Soc): set<nat> {
    if soc.Sock? then open - {soc.id} else open
  }

  /** What deletehttp closes: for a local file no socket, whatever the slot holds. */
  function Released(open: set<nat>, c: Conn): set<nat> {
    if c.isFile then open else Closed(open, c.soc)
  }

  /** deletehttp on slot i. */
  function CloseAt(n: Net, i: nat): Net
    requires i < |n.slots|
  {
    Net(n.slots[i := n.slots[i].(soc := NoSoc)], Released(n.open, n.slots[i]))
  }

  /** back_clear_entry on slot i. */
  function ClearAt(n: Net, i: nat): Net
    requires i < |n.slots|
  {
    Net(n.slots[i := CLEARED], Released(n.open, n.slots[i]))
  }

  /** A connection without its socket. */
  function Stripped(c: Conn): Conn {
    c.(soc := NoSoc, keepAlive := false, kaMax := 0, kaT := 0)
  }

  /** back_connxfr: dst takes over the connection of src. */
  function Connected(dst: Conn, src: Conn): Conn {
    dst.(soc := src.soc, keepAlive := src.keepAlive, kaMax := src.kaMax, kaT := src.kaT)
  }

  function Transfer(n: Net, i: nat, j: nat): Net
    requires i < |n.slots| && j < |n.slots| && i != j
  {
    n.(slots := n.slots[j := Connected(n.slots[j], n.slots[i])][i := Stripped(n.slots[i])])
  }

  // ---- operations ----

  /** May the connection of a finished transfer be kept? */
  predicate MayKeep(w: World, c: Conn) {
    && !w.noKeepAlive && c.keepAlive && c.kaMax > 1 && c.kaStart != 0
    && w.now < c.kaStart + c.kaT
    && (w.maxconn <= 0.0 || c.kaT as real > 1.0 / w.maxconn)
  }

  /** Is the socket in a state to be kept? */
  predicate Sound(w: World, c: Conn) {
    !c.isFile && c.soc != NoSoc && c.statuscode >= 0 && !c.trailers && (c.soc.Sock? ==> w.sockOk(c.soc.id))
  }

  /** back_maydelete: the slot is cleared, or keeps just its connection. */
  function MayDelete(n: Net, p: nat, w: World): Net
    requires p < |n.slots|
  {
    var c := n.slots[p];
    if MayKeep(w, c) && Sound(w, c) then
      n.(slots := n.slots[p := Connected(CLEARED, c).(status := Alive, addr := c.addr, kaStart := c.kaStart)])
    else ClearAt(n, p)
  }

  /** The first slot with this status, or none. */
  function FirstWith(slots: seq<Conn>, status: Status): (r: Option<nat>)
    ensures r.Some? ==> r.value < |slots| && slots[r.value].status == status
    ensures r == None ==> forall i :: 0 <= i < |slots| ==> slots[i].status != status
  {
    if slots == [] then None
    else match FirstWith(slots[..|slots| - 1], status)
      case Some(i) => Some(i)
      case None => if slots[|slots| - 1].status == status then Some(|slots| - 1) else None
  }

  /** back_search: a free slot, or one whose idle connection is given up. */
  function Search(n: Net): (r: (Option<nat>, Net))
    ensures |r.1.slots| == |n.slots|
    ensures r.0.Some? ==>
              r.0.value < |n.slots| &&
              (n.slots[r.0.value].status == Free || n.slots[r.0.value].status == Alive)
    ensures r.0.Some? ==> r.1.slots[r.0.value].status == Free
  {
    match FirstWith(n.slots, Free)
    case Some(q) => (Some(q), n)
    case None =>
      match FirstWith(n.slots, Alive)
      case Some(q) => (Some(q), ClearAt(n, q))
      case None => (None, n)
  }

  /** back_maydeletehttp: the connection goes to a slot of its own, or is closed. */
  function MayDeleteHttp(n: Net, p: nat, w: World): Net
    requires p < |n.slots| && (n.slots[p].status == Ready || n.slots[p].status == Busy)
  {
    var c := n.slots[p];
    if c.soc == NoSoc then n
    else if !(Sound(w, c) && MayKeep(w, c)) then CloseAt(n, p)
    else
      var r := Search(n);
      if r.0 == None then CloseAt(r.1, p)
      else
        var q := r.0.value;
        var m := Transfer(CloseAt(r.1, q), p, q);
        m.(slots := m.slots[q := m.slots[q].(status := Alive, addr := c.addr, kaStart := c.kaStart)])
  }

  /** back_searchlive: an idle connection to the same address, still in time. */
  function SearchLive(slots: seq<Conn>, addr: string, w: World): (r: Option<nat>)
    ensures r.Some? ==> r.value < |slots| && slots[r.value].status == Alive && slots[r.value].addr == addr
  {
    if slots == [] then None
    else match SearchLive(slots[..|slots| - 1], addr, w)
      case Some(i) => Some(i)
      case None => if Reusable(slots[|slots| - 1], addr, w) then Some(|slots| - 1) else None
  }

  predicate Reusable(c: Conn, addr: string, w: World) {
    && c.status == Alive && c.addr == addr && (c.soc.Sock? ==> w.verified(c.soc.id))
    && w.now < c.kaStart + c.kaT
  }

  /** back_trylive: slot p takes over an idle connection, if there is one. */
  function TryLive(n: Net, p: nat, w: World): Net
    requires p < |n.slots|
  {
    if n.slots[p].status == Alive then n
    else match SearchLive(n.slots, n.slots[p].addr, w)
      case None => n
      case Some(i) =>
        var m := Transfer(CloseAt(n, p), i, p);
        var k := ClearAt(m, i);
        k.(slots := k.slots[p := k.slots[p].(kaStart := n.slots[i].kaStart, status := Busy)])
  }

  // ---- none of them loses a socket ----

  lemma {:induction false} HeldUpdate(slots: seq<Conn>, i: nat, c: Conn)
    requires i < |slots| && Distinct(slots)
    requires c.soc.Sock? ==> c.soc == slots[i].soc || c.soc.id !in Held(slots)
    ensures Distinct(slots[i := c])
    ensures Held(slots[i := c]) == Closed(Held(slots), slots[i].soc) + (if c.soc.Sock? then {c.soc.id} else {})
  {
    var t := slots[i := c];
    var added := if c.soc.Sock? then {c.soc.id} else {};
    forall id ensures id in Held(t) <==> id in Closed(Held(slots), slots[i].soc) + added {
      if id in Held(t) {
        var k :| 0 <= k < |t| && t[k].soc.Sock? && t[k].soc.id == id;
        assert k != i ==> slots[k].soc == Sock(id);
      }
      if id in Closed(Held(slots), slots[i].soc) {
        var k :| 0 <= k < |slots| && slots[k].soc.Sock? && slots[k].soc.id == id;
        assert t[k].soc == Sock(id);
      }
      if c.soc == Sock(id) {
        assert t[i].soc == Sock(id);
      }
    }
  }

  lemma ReplaceOk(n: Net, i: nat, c: Conn, open: set<nat>)
    requires NetOk(n) && i < |n.slots| && ConnOk(c)
    requires c.soc.Sock? ==> c.soc == n.slots[i].soc || c.soc.id !in n.open
    requires open == Closed(n.open, n.slots[i].soc) + if c.soc.Sock? then {c.soc.id} else {}
    ensures NetOk(Net(n.slots[i := c], open))
  {
    HeldUpdate(n.slots, i, c);
  }

  lemma CloseOk(n: Net, i: nat)
    requires NetOk(n) && i < |n.slots|
    ensures NetOk(CloseAt(n, i)) && NetOk(ClearAt(n, i))
  {
    ReplaceOk(n, i, n.slots[i].(soc := NoSoc), Closed(n.open, n.slots[i].soc));
    ReplaceOk(n, i, CLEARED, Closed(n.open, n.slots[i].soc));
  }

  /** Slot j, which holds no socket, takes the one that i gives up. */
  lemma GiveOk(n: Net, i: nat, j: nat, ci: Conn, cj: Conn)
    requires NetOk(n) && i < |n.slots| && j < |n.slots| && i != j && !n.slots[j].soc.Sock?
    requires ConnOk(ci) && ConnOk(cj) && !ci.soc.Sock? && cj.soc == n.slots[i].soc
    ensures NetOk(n.(slots := n.slots[j := cj][i := ci]))
  {
    var m := Net(n.slots[i := ci], Closed(n.open, n.slots[i].soc));
    ReplaceOk(n, i, ci, m.open);
    assert n.slots[i].soc.Sock? ==> n.slots[i].soc.id in Held(n.slots);
    ReplaceOk(m, j, cj, n.open);
    assert n.slots[i := ci][j := cj] == n.slots[j := cj][i := ci];
  }

  lemma MayDeleteOk(n: Net, p: nat, w: World)
    requires NetOk(n) && p < |n.slots|
    ensures NetOk(MayDelete(n, p, w)) && MayDelete(n, p, w).open <= n.open
  {
    var c := n.slots[p];
    CloseOk(n, p);
    if Sound(w, c) {
      assert c.soc.Sock? ==> c.soc.id in Held(n.slots);
      ReplaceOk(n, p, Connected(CLEARED, c).(status := Alive, addr := c.addr, kaStart := c.kaStart), n.open);
    }
  }

  lemma SearchOk(n: Net)
    requires NetOk(n)
    ensures NetOk(Search(n).1) && Search(n).1.open <= n.open
    ensures forall i :: 0 <= i < |n.slots| && n.slots[i].status != Alive ==> Search(n).1.slots[i] == n.slots[i]
  {
    match FirstWith(n.slots, Alive)
    case Some(q) => CloseOk(n, q);
    case None =>
  }

  lemma MayDeleteHttpOk(n: Net, p: nat, w: World)
    requires NetOk(n) && p < |n.slots| && (n.slots[p].status == Ready || n.slots[p].status == Busy)
    ensures NetOk(MayDeleteHttp(n, p, w)) && MayDeleteHttp(n, p, w).open <= n.open
  {
    var c := n.slots[p];
    CloseOk(n, p);
    if Sound(w, c) && MayKeep(w, c) {
      var r := Search(n);
      SearchOk(n);
      if r.0 == None {
        CloseOk(r.1, p);
      } else {
        var q := r.0.value;
        var m := CloseAt(r.1, q);
        CloseOk(r.1, q);
        assert ConnOk(r.1.slots[q]) && m.slots[q].soc == NoSoc && m.slots[p] == c;
        var cq := Connected(m.slots[q], c).(status := Alive, addr := c.addr, kaStart := c.kaStart);
        GiveOk(m, p, q, Stripped(c), cq);
        var moved := Transfer(m, p, q).slots;
        assert moved[q := moved[q].(status := Alive, addr := c.addr, kaStart := c.kaStart)]
            == m.slots[q := cq][p := Stripped(c)];
      }
    }
  }

  /** The slot may be a free one, as it is when a link is added. */
  lemma TryLiveOk(n: Net, p: nat, w: World)
    requires NetOk(n) && p < |n.slots| && !n.slots[p].isFile
    ensures NetOk(TryLive(n, p, w)) && TryLive(n, p, w).open <= n.open
  {
    var found := SearchLive(n.slots, n.slots[p].addr, w);
    if n.slots[p].status != Alive && found.Some? {
      var i := found.value;
      var m := CloseAt(n, p);
      var cp := Connected(m.slots[p], m.slots[i]).(kaStart := n.slots[i].kaStart, status := Busy);
      CloseOk(n, p);
      GiveOk(m, i, p, CLEARED, cp);
      assert TryLive(n, p, w).slots == m.slots[p := cp][i := CLEARED];
    }
  }

  // ---- which connections are kept, and which are taken over ----

  /** An idle connection to addr, still in time, and over TLS one that was verified. */
  predicate IsOffer(c: Conn, addr: string, w: World) {
    c.status == Alive && c.addr == addr && w.now < c.kaStart + c.kaT && (c.soc.Sock? ==> w.verified(c.soc.id))
  }

  lemma {:induction false} SearchesOffers(slots: seq<Conn>, addr: string, w: World)
    ensures SearchLive(slots, addr, w).Some? <==> exists i :: 0 <= i < |slots| && IsOffer(slots[i], addr, w)
    ensures SearchLive(slots, addr, w).Some? ==> IsOffer(slots[SearchLive(slots, addr, w).value], addr, w)
  {
    if slots != [] {
      SearchesOffers(slots[..|slots| - 1], addr, w);
    }
  }

  /** Slot p gets the connection of slot i, which is cleared, and starts to work. */
  predicate TakesOver(n: Net, p: nat, i: nat, t: Net) {
    && p < |n.slots| == |t.slots| && i < |n.slots| && i != p
    && t.slots[p].soc == n.slots[i].soc && t.slots[p].addr == n.slots[p].addr && t.slots[p].status == Busy
    && t.slots[p].keepAlive == n.slots[i].keepAlive && t.slots[p].kaMax == n.slots[i].kaMax
    && t.slots[p].kaT == n.slots[i].kaT && t.slots[p].kaStart == n.slots[i].kaStart
    && t.slots[i] == CLEARED
    && forall k :: 0 <= k < |n.slots| && k != i && k != p ==> t.slots[k] == n.slots[k]
  }

  /** A slot takes over a connection exactly when there is one on offer, and only such
      a one. */
  lemma TakesOverExactly(n: Net, p: nat, w: World)
    requires p < |n.slots| && n.slots[p].status != Alive
    ensures var t, addr := TryLive(n, p, w), n.slots[p].addr;
            if exists i :: 0 <= i < |n.slots| && IsOffer(n.slots[i], addr, w) then
              exists i: nat :: TakesOver(n, p, i, t) && IsOffer(n.slots[i], addr, w)
            else t == n
  {
    SearchesOffers(n.slots, n.slots[p].addr, w);
    var found := SearchLive(n.slots, n.slots[p].addr, w);
    if found.Some? {
      assert TakesOver(n, p, found.value, TryLive(n, p, w));
    }
  }

  /** The user and the server agree to another request, requests and time are left, and
      nothing is wrong with the connection. */
  predicate IsReusable(c: Conn, w: World) {
    && !w.noKeepAlive && c.keepAlive && c.kaMax > 1 && c.kaStart != 0 && w.now < c.kaStart + c.kaT
    && (w.maxconn <= 0.0 || c.kaT as real > 1.0 / w.maxconn)
    && !c.isFile && c.soc != NoSoc && c.statuscode >= 0 && !c.trailers && (c.soc.Sock? ==> w.sockOk(c.soc.id))
  }

  /** A free slot is taken before an idle one, whose connection is closed. */
  lemma SearchesExactly(n: Net)
    ensures var r := Search(n);
            if exists i :: 0 <= i < |n.slots| && n.slots[i].status == Free then
              r.0.Some? && n.slots[r.0.value].status == Free && r.1 == n
            else if exists i :: 0 <= i < |n.slots| && n.slots[i].status == Alive then
              r.0.Some? && n.slots[r.0.value].status == Alive && r.1.slots == n.slots[r.0.value := CLEARED]
            else r == (None, n)
  {
  }

  /** A finished transfer's slot keeps its connection, and nothing else, exactly when it
      may be used again; it is cleared otherwise. */
  lemma KeptExactly(n: Net, p: nat, w: World)
    requires p < |n.slots|
    ensures var c, t := n.slots[p], MayDelete(n, p, w).slots[p];
            if IsReusable(c, w) then
              t == CLEARED.(status := Alive, addr := c.addr, soc := c.soc, keepAlive := true, kaMax := c.kaMax,
                            kaT := c.kaT, kaStart := c.kaStart)
            else t == CLEARED
  {
  }

  /** Slot q, free or idle before, now holds the connection that p had. */
  predicate IsParked(n: Net, p: nat, q: nat, t: Net) {
    && p < |n.slots| == |t.slots| && q < |n.slots| && p != q
    && (n.slots[q].status == Free || n.slots[q].status == Alive)
    && t.slots[q].status == Alive && t.slots[q].soc == n.slots[p].soc && t.slots[q].addr == n.slots[p].addr
    && t.slots[q].kaStart == n.slots[p].kaStart && t.slots[q].kaT == n.slots[p].kaT
    && t.slots[q].kaMax == n.slots[p].kaMax && t.slots[q].keepAlive == n.slots[p].keepAlive
    && t.slots[p].soc == NoSoc
    && forall k :: 0 <= k < |n.slots| && k != p && k != q ==> t.slots[k] == n.slots[k]
  }

  /** The connection of a slot that stays goes to another exactly when it may be used
      again and a slot is free or idle; it is closed otherwise. */
  lemma ParksExactly(n: Net, p: nat, w: World)
    requires p < |n.slots| && (n.slots[p].status == Ready || n.slots[p].status == Busy)
    ensures var t := MayDeleteHttp(n, p, w);
            if IsReusable(n.slots[p], w)
               && exists k :: 0 <= k < |n.slots| && (n.slots[k].status == Free || n.slots[k].status == Alive)
            then exists q :: IsParked(n, p, q, t)
            else t.slots == n.slots[p := n.slots[p].(soc := NoSoc)]
  {
    var r, t := Search(n), MayDeleteHttp(n, p, w);
    if IsReusable(n.slots[p], w) && r.0.Some? {
      assert IsParked(n, p, r.0.value, t);
    }
  }

  // ---- what they leave alone ----

  /** Slots at work, and those that were ready, p aside, stay as they are; only a free
      or idle slot may change, into a free or an idle one. */
  ghost predicate Spares(was: seq<Conn>, now: seq<Conn>, p: nat) {
    && |now| == |was|
    && forall i :: 0 <= i < |was| && i != p ==>
         now[i] == was[i] || ((was[i].status == Free || was[i].status == Alive) &&
                              (now[i].status == Free || now[i].status == Alive))
  }

  lemma MayDeleteSpares(n: Net, p: nat, w: World)
    requires p < |n.slots|
    ensures Spares(n.slots, MayDelete(n, p, w).slots, p)
    ensures var c := MayDelete(n, p, w).slots[p]; c.status == Free || c.status == Alive
  {
  }

  /** The slot itself keeps all but its connection. */
  lemma MayDeleteHttpSpares(n: Net, p: nat, w: World)
    requires p < |n.slots| && (n.slots[p].status == Ready || n.slots[p].status == Busy)
    ensures Spares(n.slots, MayDeleteHttp(n, p, w).slots, p)
    ensures var c := MayDeleteHttp(n, p, w).slots[p]; c.status == n.slots[p].status && c.soc == NoSoc
  {
  }

  // ---- counting ----

  /** back_nsoc_overall. */
  function CountLive(slots: seq<Conn>): nat {
    if slots == [] then 0
    else CountLive(slots[..|slots| - 1]) + if IsLive(slots[|slots| - 1]) then 1 else 0
  }

  predicate IsLive(c: Conn) {
    c.status == Busy || c.status == Alive
  }

  lemma {:induction false} CountUpdate(slots: seq<Conn>, i: nat, c: Conn)
    requires i < |slots|
    ensures CountLive(slots[i := c])
         == CountLive(slots) - (if IsLive(slots[i]) then 1 else 0) + (if IsLive(c) then 1 else 0)
  {
    var last := |slots| - 1;
    if i < last {
      CountUpdate(slots[..last], i, c);
      assert slots[i := c][..last] == slots[..last][i := c];
    } else {
      assert slots[i := c][..last] == slots[..last];
    }
  }

  ghost predicate NoneReady(slots: seq<Conn>) {
    forall i :: 0 <= i < |slots| && slots[i].status == Ready ==> slots[i].soc == NoSoc
  }

  /** When no finished transfer holds a socket, the count bounds the open sockets. */
  lemma {:induction false} CountBoundsSockets(slots: seq<Conn>)
    requires NoneReady(slots) && forall i :: 0 <= i < |slots| ==> ConnOk(slots[i])
    ensures |Held(slots)| <= CountLive(slots)
  {
    if slots != [] {
      var before, c := slots[..|slots| - 1], slots[|slots| - 1];
      CountBoundsSockets(before);
      HeldLast(slots);
      if c.soc.Sock? && c.soc.id !in Held(before) {
        assert |Held(before) + {c.soc.id}| == |Held(before)| + 1;
      }
    }
  }

  lemma HeldLast(slots: seq<Conn>)
    requires slots != []
    ensures var before, c := slots[..|slots| - 1], slots[|slots| - 1];
            Held(slots) == if c.soc.Sock? then Held(before) + {c.soc.id} else Held(before)
  {
    var n := |slots| - 1;
    var before, c := slots[..n], slots[n];
    var want := if c.soc.Sock? then Held(before) + {c.soc.id} else Held(before);
    forall id ensures id in Held(slots) <==> id in want {
      if id in Held(slots) {
        var k :| 0 <= k <= n && slots[k].soc.Sock? && slots[k].soc.id == id;
        assert k < n ==> before[k].soc == Sock(id);
      }
      if id in Held(before) {
        var k :| 0 <= k < n && before[k].soc.Sock? && before[k].soc.id == id;
        assert slots[k].soc == Sock(id);
      }
      if c.soc == Sock(id) {
        assert slots[n].soc == Sock(id);
      }
    }
  }

  // ---- runs ----

  /** A run. A slot is taken for a link while it is still free; it then takes over an
      idle connection or starts one of its own, or opens a local file, is finished and
      cleared, and its connection kept. A connection may be given up before. Guess is
      a 304 that the cache has no entry for: the file on disk is taken for the answer. */
  datatype Event =
    | Take(i: nat, addr: string)
    | Start(i: nat)
    | Connect(i: nat, id: nat)
    | OpenLocal(i: nat, found: bool)
    | Hangup(i: nat)
    | Guess(i: nat)
    | Finish(i: nat, statuscode: int, trailers: bool, keepAlive: bool, kaMax: int, kaT: int, kaStart: int)
    | TryLiveAt(i: nat, w: World)
    | MayDeleteAt(i: nat, w: World)
    | MayDeleteHttpAt(i: nat, w: World)
    | Requisition
    | Delete(i: nat)

  predicate Legal(n: Net, ev: Event) {
    match ev
    case Take(i, _) => i < |n.slots| && n.slots[i].status == Free
    case Start(i) => i < |n.slots| && n.slots[i].status == Free
    case Connect(i, id) =>
      i < |n.slots| && n.slots[i].status == Busy && n.slots[i].soc == NoSoc && !n.slots[i].isFile && id !in n.open
    case OpenLocal(i, _) => i < |n.slots| && n.slots[i].status == Busy && n.slots[i].soc == NoSoc
    case Hangup(i) => i < |n.slots| && (n.slots[i].status == Ready || n.slots[i].status == Busy)
    case Guess(i) => i < |n.slots| && n.slots[i].status == Busy
    case Finish(i, _, _, _, _, _, _) => i < |n.slots| && n.slots[i].status == Busy
    case TryLiveAt(i, _) => i < |n.slots| && !n.slots[i].isFile
    case MayDeleteAt(i, _) => i < |n.slots|
    case MayDeleteHttpAt(i, _) => i < |n.slots| && (n.slots[i].status == Ready || n.slots[i].status == Busy)
    case Requisition => true
    case Delete(i) => i < |n.slots|
  }

  function Step(n: Net, ev: Event): Net
    requires Legal(n, ev)
  {
    match ev
    case Take(i, addr) => n.(slots := n.slots[i := n.slots[i].(addr := addr)])
    case Start(i) => n.(slots := n.slots[i := n.slots[i].(status := Busy)])
    case Connect(i, id) => Net(n.slots[i := n.slots[i].(soc := Sock(id))], n.open + {id})
    case OpenLocal(i, found) =>
      n.(slots := n.slots[i := n.slots[i].(isFile := true, soc := if found then Local else NoSoc)])
    case Hangup(i) => CloseAt(n, i)
    case Guess(i) => n.(slots := n.slots[i := n.slots[i].(isFile := true, statuscode := HTTP_OK)])
    case Finish(i, code, trailers, ka, max, t, start) =>
      n.(slots := n.slots[i := n.slots[i].(status := Ready, statuscode := code, trailers := trailers, keepAlive := ka,
                                           kaMax := max, kaT := t, kaStart := start)])
    case TryLiveAt(i, w) => TryLive(n, i, w)
    case MayDeleteAt(i, w) => MayDelete(n, i, w)
    case MayDeleteHttpAt(i, w) => MayDeleteHttp(n, i, w)
    case Requisition => Search(n).1
    case Delete(i) => ClearAt(n, i)
  }

  lemma SameSocketOk(n: Net, i: nat, c: Conn)
    requires NetOk(n) && i < |n.slots| && ConnOk(c) && c.soc == n.slots[i].soc
    ensures NetOk(n.(slots := n.slots[i := c]))
  {
    assert c.soc.Sock? ==> c.soc.id in Held(n.slots);
    ReplaceOk(n, i, c, n.open);
  }

  /** A slot is marked as a local file while it holds a socket. */
  predicate Mistakes(n: Net, ev: Event) {
    ev.Guess? && ev.i < |n.slots| && n.slots[ev.i].soc.Sock?
  }

  /** Every step but that one keeps each open socket in exactly one slot, and out of
      the slots of local files. */
  lemma StepOk(n: Net, ev: Event)
    requires NetOk(n) && Legal(n, ev)
    ensures NetOk(Step(n, ev)) <==> !Mistakes(n, ev)
    ensures |Step(n, ev).slots| == |n.slots|
  {
    if Mistakes(n, ev) {
      assert !ConnOk(Step(n, ev).slots[ev.i]);
    } else {
      OtherStepsOk(n, ev);
    }
  }

  lemma OtherStepsOk(n: Net, ev: Event)
    requires NetOk(n) && Legal(n, ev) && !Mistakes(n, ev)
    ensures NetOk(Step(n, ev))
  {
    match ev
    case Take(i, addr) => SameSocketOk(n, i, Step(n, ev).slots[i]);
    case Start(i) => SameSocketOk(n, i, Step(n, ev).slots[i]);
    case Connect(i, id) => ReplaceOk(n, i, n.slots[i].(soc := Sock(id)), n.open + {id});
    case OpenLocal(i, _) => ReplaceOk(n, i, Step(n, ev).slots[i], n.open);
    case Hangup(i) => CloseOk(n, i);
    case Guess(i) => SameSocketOk(n, i, Step(n, ev).slots[i]);
    case Finish(i, _, _, _, _, _, _) => SameSocketOk(n, i, Step(n, ev).slots[i]);
    case TryLiveAt(i, w) => TryLiveOk(n, i, w);
    case MayDeleteAt(i, w) => MayDeleteOk(n, i, w);
    case MayDeleteHttpAt(i, w) => MayDeleteHttpOk(n, i, w);
    case Requisition => SearchOk(n);
    case Delete(i) => CloseOk(n, i);
  }

  /** A free slot is empty, and an idle one holds a connection that may be used again. */
  predicate IdleOk(c: Conn) {
    && (c.status == Free ==> c.soc == NoSoc && !c.isFile)
    && (c.status == Alive ==> c.soc != NoSoc && !c.isFile && c.keepAlive && c.kaMax > 1 && c.kaStart != 0)
  }

  ghost predicate AllIdleOk(slots: seq<Conn>) {
    forall i :: 0 <= i < |slots| ==> IdleOk(slots[i])
  }

  lemma ClearKeepsIdle(n: Net, i: nat)
    requires AllIdleOk(n.slots) && i < |n.slots|
    ensures AllIdleOk(ClearAt(n, i).slots)
    ensures n.slots[i].status != Alive ==> AllIdleOk(CloseAt(n, i).slots)
  {
  }

  lemma ParkKeepsIdle(n: Net, p: nat, w: World)
    requires AllIdleOk(n.slots) && p < |n.slots| && (n.slots[p].status == Ready || n.slots[p].status == Busy)
    ensures AllIdleOk(MayDeleteHttp(n, p, w).slots)
  {
    ClearKeepsIdle(n, p);
    match FirstWith(n.slots, Alive)
    case Some(q) => ClearKeepsIdle(n, q);
    case None =>
  }

  lemma TakeOverKeepsIdle(n: Net, p: nat, w: World)
    requires AllIdleOk(n.slots) && p < |n.slots|
    ensures AllIdleOk(TryLive(n, p, w).slots)
  {
    if n.slots[p].status != Alive {
      TakesOverExactly(n, p, w);
    }
  }

  lemma StepKeepsIdle(n: Net, ev: Event)
    requires AllIdleOk(n.slots) && Legal(n, ev)
    ensures AllIdleOk(Step(n, ev).slots)
  {
    match ev
    case TryLiveAt(i, w) => TakeOverKeepsIdle(n, i, w);
    case MayDeleteAt(i, w) => KeptExactly(n, i, w);
    case MayDeleteHttpAt(i, w) => ParkKeepsIdle(n, i, w);
    case Requisition =>
      match FirstWith(n.slots, Alive) {
        case Some(q) => ClearKeepsIdle(n, q);
        case None =>
      }
    case Delete(i) => ClearKeepsIdle(n, i);
    case Hangup(i) => ClearKeepsIdle(n, i);
    case _ =>
  }

  /** In every run, whatever is mistaken in it. */
  lemma {:induction false} RunKeepsIdle(count: nat, evs: seq<Event>)
    ensures AllIdleOk(Run(count, evs).slots)
  {
    if evs != [] {
      var n := Run(count, evs[..|evs| - 1]);
      RunKeepsIdle(count, evs[..|evs| - 1]);
      if Legal(n, evs[|evs| - 1]) {
        StepKeepsIdle(n, evs[|evs| - 1]);
      }
    }
  }

  function Run(count: nat, evs: seq<Event>): Net {
    if evs == [] then Net(seq(count, _ => CLEARED), {}) else
    var n := Run(count, evs[..|evs| - 1]);
    if Legal(n, evs[|evs| - 1]) then Step(n, evs[|evs| - 1]) else n
  }

  /** After every step of the run, is each open socket held by exactly one slot? */
  ghost predicate AlwaysOk(count: nat, evs: seq<Event>) {
    NetOk(Run(count, evs)) && (evs == [] || AlwaysOk(count, evs[..|evs| - 1]))
  }

  /** Did a step of the run mark a slot as a local file while it held a socket? */
  predicate MistakeMade(count: nat, evs: seq<Event>) {
    evs != [] &&
    var before, last := evs[..|evs| - 1], evs[|evs| - 1];
    MistakeMade(count, before) || (Legal(Run(count, before), last) && Mistakes(Run(count, before), last))
  }

  /** A run keeps each open socket in exactly one slot, and out of the slots of local
      files, if and only if no socket was taken for a file. */
  lemma {:induction false} RunOk(count: nat, evs: seq<Event>)
    ensures AlwaysOk(count, evs) <==> !MistakeMade(count, evs)
  {
    if evs == [] {
      assert Held(seq(count, _ => CLEARED)) == {};
    } else {
      var n := Run(count, evs[..|evs| - 1]);
      RunOk(count, evs[..|evs| - 1]);
      if NetOk(n) && Legal(n, evs[|evs| - 1]) {
        StepOk(n, evs[|evs| - 1]);
      }
    }
  }

  /** Such a socket is never closed: however the slot gives it up, it stays open and
      no slot holds it. */
  lemma MistakeLeaks(n: Net, i: nat, ev: Event, w: World)
    requires NetOk(n) && Legal(n, Guess(i)) && Mistakes(n, Guess(i))
    requires ev in {Hangup(i), Delete(i), MayDeleteAt(i, w), MayDeleteHttpAt(i, w)}
    ensures var m, id := Step(n, Guess(i)), n.slots[i].soc.id;
            Legal(m, ev) && id in Step(m, ev).open && id !in Held(Step(m, ev).slots)
  {
    var m, id := Step(n, Guess(i)), n.slots[i].soc.id;
    assert id in Held(n.slots);
    forall k | 0 <= k < |m.slots| && k != i
      ensures m.slots[k].soc != Sock(id)
    {
      assert m.slots[k] == n.slots[k];
    }
  }
}
