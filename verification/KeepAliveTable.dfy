/** The slot table and the keep-alive operations on it. */
module KeepAliveTable {
  import opened Wrappers
  import opened KeepAlive

  /** What back_clean finds of a ready slot: its file is done, its body stays in
      memory, or it is to be left alone. */
  datatype Verdict = Leave | Done | InMemory

  class Table {
    const slots: array<Conn>
    ghost var open: set<nat>

    ghost function View(): Net
      reads this, slots
    {
      Net(slots[..], open)
    }

    ghost predicate Valid()
      reads this, slots
    {
      NetOk(View())
    }

    constructor (count: nat)
      ensures Valid() && slots.Length == count && fresh(slots)
    {
      slots := new Conn[count](_ => CLEARED);
      open := {};
    }

    // ---- one slot ----

    /** A new connection of a slot at work. The slot may hold none before. */
    method Connect(i: nat, id: nat)
      requires Valid() && i < slots.Length && slots[i].status == Busy && slots[i].soc == NoSoc && !slots[i].isFile
      requires id !in open
      modifies this, slots
      ensures Valid() && View() == Net(old(slots[..])[i := old(slots[i]).(soc := Sock(id))], old(open) + {id})
    {
      ReplaceOk(View(), i, slots[i].(soc := Sock(id)), open + {id});
      slots[i] := slots[i].(soc := Sock(id));
      open := open + {id};
      assert slots[..] == old(slots[..])[i := slots[i]];
    }

    /** deletehttp: a socket is closed only while it is open, and not for a local file. */
    method DeleteHttp(i: nat)
      requires i < slots.Length && (slots[i].soc.Sock? ==> slots[i].soc.id in open)
      modifies this, slots
      ensures View() == CloseAt(old(View()), i)
    {
      if slots[i].soc != NoSoc {
        if slots[i].soc.Sock? && !slots[i].isFile {
          open := open - {slots[i].soc.id};
        }
        slots[i] := slots[i].(soc := NoSoc);
      }
      assert slots[..] == CloseAt(old(View()), i).slots;
    }

    /** back_clear_entry. */
    method ClearEntry(i: nat)
      requires i < slots.Length && (slots[i].soc.Sock? ==> slots[i].soc.id in open)
      modifies this, slots
      ensures View() == ClearAt(old(View()), i)
    {
      if slots[i].soc != NoSoc {
        DeleteHttp(i);
      }
      slots[i] := CLEARED;
      assert slots[..] == ClearAt(old(View()), i).slots;
    }

    lemma HeldIsOpen(i: nat)
      requires Valid() && i < slots.Length
      ensures slots[i].soc.Sock? ==> slots[i].soc.id in open
    {
      assert slots[..][i] == slots[i];
    }

    /** back_letlive: the connection is taken out, the slot cleared, and the
        connection put back. */
    method LetLive(p: nat, w: World) returns (ok: bool)
      requires p < slots.Length
      modifies this, slots
      ensures ok == Sound(w, old(slots[p]))
      ensures View()
           == if ok then old(View()).(slots := old(slots[..])[p := Connected(CLEARED, old(slots[p]))]) else old(View())
    {
      var c := slots[p];
      ok := !c.isFile && c.soc != NoSoc && c.statuscode >= 0 && !c.trailers && (c.soc.Sock? ==> w.sockOk(c.soc.id));
      if ok {
        slots[p] := Stripped(c);
        ClearEntry(p);
        slots[p] := Connected(slots[p], c);
        assert slots[..] == old(slots[..])[p := Connected(CLEARED, c)];
      }
    }

    method MayDeleteSlot(p: nat, w: World)
      requires Valid() && p < slots.Length
      modifies this, slots
      ensures Valid() && View() == MayDelete(old(View()), p, w)
    {
      MayDeleteOk(View(), p, w);
      HeldIsOpen(p);
      var c := slots[p];
      if MayKeep(w, c) {
        var ok := LetLive(p, w);
        if ok {
          slots[p] := slots[p].(status := Alive, addr := c.addr, kaStart := c.kaStart);
          assert slots[..] == MayDelete(old(View()), p, w).slots;
          return;
        }
      }
      ClearEntry(p);
    }

    /** back_search. */
    method SearchSlot() returns (q: Option<nat>)
      requires Valid()
      modifies this, slots
      ensures Valid() && (q, View()) == Search(old(View()))
    {
      SearchOk(View());
      q := Find(Free);
      if q == None {
        q := Find(Alive);
        if q.Some? {
          HeldIsOpen(q.value);
          ClearEntry(q.value);
        }
      }
    }

    method Find(status: Status) returns (q: Option<nat>)
      ensures q == FirstWith(slots[..], status)
    {
      assert slots[..0] == [] && slots[..slots.Length] == slots[..];
      for i := 0 to slots.Length
        invariant FirstWith(slots[..i], status) == None
      {
        assert slots[..i + 1][..i] == slots[..i];
        if slots[i].status == status {
          FirstStays(slots[..], i + 1, status);
          return Some(i);
        }
      }
      return None;
    }

    static lemma {:induction false} FirstStays(s: seq<Conn>, n: nat, status: Status)
      requires n <= |s| && FirstWith(s[..n], status).Some?
      ensures FirstWith(s, status) == FirstWith(s[..n], status)
      decreases |s| - n
    {
      if n < |s| {
        assert s[..n + 1][..n] == s[..n];
        FirstStays(s, n + 1, status);
      } else {
        assert s[..n] == s;
      }
    }

    /** back_maydeletehttp. */
    method MayDeleteHttpSlot(p: nat, w: World)
      requires Valid() && p < slots.Length && (slots[p].status == Ready || slots[p].status == Busy)
      modifies this, slots
      ensures Valid() && View() == MayDeleteHttp(old(View()), p, w)
    {
      ghost var n := View();
      MayDeleteHttpOk(n, p, w);
      HeldIsOpen(p);
      var c := slots[p];
      if c.soc == NoSoc {
        return;
      }
      if Sound(w, c) && MayKeep(w, c) {
        SearchOk(n);
        var q := SearchSlot();
        if q.Some? {
          MoveToSlot(p, q.value, c);
          assert slots[..] == MayDeleteHttp(n, p, w).slots;
          return;
        }
        HeldIsOpen(p);
      }
      DeleteHttp(p);
    }

    /** The connection of p goes to the free slot q. */
    method MoveToSlot(p: nat, q: nat, c: Conn)
      requires Valid() && p < slots.Length && q < slots.Length && p != q && slots[q].status == Free && slots[p] == c
      modifies this, slots
      ensures var m := Transfer(CloseAt(old(View()), q), p, q);
              View() == m.(slots := m.slots[q := m.slots[q].(status := Alive, addr := c.addr, kaStart := c.kaStart)])
    {
      HeldIsOpen(q);
      DeleteHttp(q);
      ghost var m := Transfer(View(), p, q);
      slots[q] := Connected(slots[q], slots[p]);
      slots[p] := Stripped(slots[p]);
      assert slots[..] == m.slots;
      slots[q] := slots[q].(status := Alive, addr := c.addr, kaStart := c.kaStart);
      assert slots[..] == m.slots[q := slots[q]];
    }

    /** back_searchlive. */
    method SearchLiveSlot(addr: string, w: World) returns (q: Option<nat>)
      ensures q == SearchLive(slots[..], addr, w)
    {
      assert slots[..0] == [] && slots[..slots.Length] == slots[..];
      for i := 0 to slots.Length
        invariant SearchLive(slots[..i], addr, w) == None
      {
        assert slots[..i + 1][..i] == slots[..i];
        if Reusable(slots[i], addr, w) {
          FirstLiveStays(slots[..], i + 1, addr, w);
          return Some(i);
        }
      }
      return None;
    }

    static lemma {:induction false} FirstLiveStays(s: seq<Conn>, n: nat, addr: string, w: World)
      requires n <= |s| && SearchLive(s[..n], addr, w).Some?
      ensures SearchLive(s, addr, w) == SearchLive(s[..n], addr, w)
      decreases |s| - n
    {
      if n < |s| {
        assert s[..n + 1][..n] == s[..n];
        FirstLiveStays(s, n + 1, addr, w);
      } else {
        assert s[..n] == s;
      }
    }

    /** back_trylive. */
    method TryLiveSlot(p: nat, w: World) returns (ok: bool)
      requires Valid() && p < slots.Length && !slots[p].isFile
      modifies this, slots
      ensures Valid() && View() == TryLive(old(View()), p, w)
      ensures ok <==> old(slots[p]).status != Alive && SearchLive(old(slots[..]), old(slots[p]).addr, w).Some?
    {
      ghost var n := View();
      TryLiveOk(n, p, w);
      ok := false;
      if slots[p].status != Alive {
        var found := SearchLiveSlot(slots[p].addr, w);
        if found.Some? {
          var i := found.value;
          HeldIsOpen(p);
          DeleteHttp(p);
          ghost var m := Transfer(View(), i, p);
          slots[p] := Connected(slots[p], slots[i]);
          slots[i] := Stripped(slots[i]);
          assert slots[..] == m.slots;
          slots[p] := slots[p].(kaStart := slots[i].kaStart);
          ClearEntry(i);
          slots[p] := slots[p].(status := Busy);
          assert slots[..] == TryLive(n, p, w).slots;
          ok := true;
        }
      }
    }

    // ---- cleaning up ----

    /** Working slots stay as they are, and no socket is opened. */
    twostate predicate OnlyCleans()
      reads this, slots
    {
      && open <= old(open)
      && forall i :: 0 <= i < slots.Length && old(slots[i]).status == Busy ==> slots[i] == old(slots[i])
    }

    /** No finished transfer is given up, and no other slot becomes one. */
    twostate predicate SameReady()
      reads this, slots
    {
      forall k :: 0 <= k < slots.Length ==> (slots[k].status == Ready <==> old(slots[k]).status == Ready)
    }

    /** What back_clean does with slot i. */
    method CleanOne(i: nat, w: World, verdict: nat -> Verdict)
      requires Valid() && i < slots.Length
      modifies this, slots
      ensures Valid() && OnlyCleans()
      ensures slots[i].status == Ready <==> old(slots[i]).status == Ready && verdict(i) != Done
      ensures forall k :: 0 <= k < slots.Length && k != i ==>
                (slots[k].status == Ready <==> old(slots[k]).status == Ready)
    {
      ghost var n := View();
      if slots[i].status == Ready && verdict(i) == Done {
        MayDeleteSpares(n, i, w);
        MayDeleteOk(n, i, w);
        MayDeleteSlot(i, w);
      } else if slots[i].status == Ready && verdict(i) == InMemory {
        MayDeleteHttpSpares(n, i, w);
        MayDeleteHttpOk(n, i, w);
        MayDeleteHttpSlot(i, w);
      } else if slots[i].status == Alive {
        var c := slots[i];
        if !c.keepAlive || c.soc == NoSoc || c.kaMax < 1 || w.now >= c.kaStart + c.kaT {
          CloseOk(n, i);
          HeldIsOpen(i);
          ClearEntry(i);
        }
      }
      assert forall k :: 0 <= k < slots.Length ==> n.slots[k] == old(slots[k]) && slots[..][k] == slots[k];
    }

    /** No ready slot before n holds a socket. */
    ghost predicate ReadyDone(n: nat)
      reads slots
      requires n <= slots.Length
    {
      forall k :: 0 <= k < n && slots[k].status == Ready ==> slots[k].soc == NoSoc
    }

    /** The connections of finished transfers go to slots of their own, or are closed. */
    method SwitchReady(w: World)
      requires Valid()
      modifies this, slots
      ensures Valid() && OnlyCleans() && SameReady() && ReadyDone(slots.Length)
    {
      for i := 0 to slots.Length
        invariant Valid() && OnlyCleans() && SameReady() && ReadyDone(i)
      {
        if slots[i].status == Ready && slots[i].soc != NoSoc {
          SwitchOne(i, w);
        }
      }
    }

    method SwitchOne(i: nat, w: World)
      requires Valid() && i < slots.Length && slots[i].status == Ready && ReadyDone(i)
      modifies this, slots
      ensures Valid() && OnlyCleans() && SameReady() && ReadyDone(i + 1)
    {
      ghost var n := View();
      MayDeleteHttpSpares(n, i, w);
      MayDeleteHttpOk(n, i, w);
      MayDeleteHttpSlot(i, w);
      assert forall k :: 0 <= k < slots.Length ==> n.slots[k] == old(slots[k]) && slots[..][k] == slots[k];
    }

    /** back_nsoc_overall. */
    method CountSockets() returns (n: nat)
      ensures n == CountLive(slots[..])
    {
      n := 0;
      assert slots[..slots.Length] == slots[..];
      for i := 0 to slots.Length
        invariant n == CountLive(slots[..i])
      {
        assert slots[..i + 1][..i] == slots[..i];
        if slots[i].status == Busy || slots[i].status == Alive {
          n := n + 1;
        }
      }
    }

    method CloseOne(i: nat)
      requires Valid() && i < slots.Length && slots[i].status == Alive
      modifies this, slots
      ensures Valid() && open <= old(open) && slots[i] == CLEARED
      ensures forall k :: 0 <= k < slots.Length && k != i ==> slots[k] == old(slots[k])
      ensures CountLive(slots[..]) == CountLive(old(slots[..])) - 1
    {
      ghost var n := View();
      CountUpdate(slots[..], i, CLEARED);
      CloseOk(n, i);
      HeldIsOpen(i);
      ClearEntry(i);
      assert slots[..] == n.slots[i := CLEARED];
    }

    /** Idle connections are closed until no more than `max` slots are live. */
    method CloseIdle(max: int)
      requires Valid() && ReadyDone(slots.Length)
      modifies this, slots
      ensures Valid() && OnlyCleans() && SameReady() && ReadyDone(slots.Length)
      ensures CountLive(slots[..]) <= max || forall k :: 0 <= k < slots.Length ==> slots[k].status != Alive
    {
      var n := CountSockets();
      var curr: int := n;
      var i := 0;
      while i < slots.Length && curr > max
        invariant 0 <= i <= slots.Length && Valid() && OnlyCleans() && SameReady() && ReadyDone(slots.Length)
        invariant curr == CountLive(slots[..])
        invariant forall k :: 0 <= k < i ==> slots[k].status != Alive
      {
        if slots[i].status == Alive {
          CloseOne(i);
          curr := curr - 1;
        }
        i := i + 1;
      }
    }

    /** back_clean: no working connection is touched, the finished transfers that are done
        are given up and the others stay, none keeps a socket, and with a limit on
        sockets either no idle connection is left or no more sockets are open than
        the limit allows. */
    method Clean(w: World, verdict: nat -> Verdict, maxsoc: int, oneMore: bool)
      requires Valid()
      modifies this, slots
      ensures Valid() && OnlyCleans() && NoneReady(slots[..])
      ensures forall i :: 0 <= i < slots.Length ==>
                (slots[i].status == Ready <==> old(slots[i]).status == Ready && verdict(i) != Done)
      ensures maxsoc > 0 ==>
                || |open| <= CountLive(slots[..]) <= maxsoc + (if oneMore then 1 else 0)
                || forall k :: 0 <= k < slots.Length ==> slots[k].status != Alive
    {
      for i := 0 to slots.Length
        invariant Valid() && OnlyCleans()
        invariant forall k :: 0 <= k < slots.Length ==>
                    (slots[k].status == Ready <==> old(slots[k]).status == Ready && (k < i ==> verdict(k) != Done))
      {
        CleanOne(i, w, verdict);
      }
      SwitchReady(w);
      if maxsoc > 0 {
        CloseIdle(maxsoc + if oneMore then 1 else 0);
      }
      CountBoundsSockets(slots[..]);
    }
  }
}
