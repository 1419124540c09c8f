/** The cookie jar as htsbauth.c keeps it: a NUL-terminated text in a fixed
    buffer, edited in place. */
module CookieJar {
  import opened CookieText
  import opened Wrappers
  import opened EvictionPlan
  import opened EvictionLaws
  import opened JarOrder
  import opened CookieStore
  import opened CookieStoreLaws
  import opened CookieTally
  import opened CookiePlanner
  import opened CookieSort
  import opened CookieGreedy

  predicate IsCString(s: string) {
    forall i :: 0 <= i < |s| ==> s[i] != '\0'
  }

  predicate NoBreak(s: string) {
    forall i :: 0 <= i < |s| ==> s[i] != '\t' && s[i] != '\r' && s[i] != '\n'
  }

  class Jar {
    const maxLen: nat
    const data: array<char>
    ghost var jar: JarState

    /** The buffer holds the C string t. */
    ghost predicate Holds(t: string)
      reads data
    {
      && |t| < maxLen <= data.Length && IsCString(t)
      && data[..|t|] == t && data[|t|] == '\0'
    }

    ghost predicate Valid()
      reads this, data
    {
      JarOk(jar, maxLen) && Holds(Text(jar.recs))
    }

    constructor (maxLen: nat, capacity: nat)
      requires 0 < maxLen <= capacity
      ensures Valid() && fresh(data)
      ensures this.maxLen == maxLen && data.Length == capacity && jar == EMPTY_JAR
    {
      this.maxLen := maxLen;
      data := new char[capacity](_ => '\0');
      jar := EMPTY_JAR;
      new;
      assert Lines([]) == [];
    }

    // ---- edits of the buffer ----

    /** strlen(data). */
    method StrLen(ghost t: string) returns (n: nat)
      requires Holds(t)
      ensures n == |t|
    {
      n := 0;
      while data[n] != '\0'
        invariant n <= |t|
        decreases |t| - n
      {
        assert t[n] == data[n];
        n := n + 1;
      }
    }

    /** Copy s over the bytes at `at`. */
    method Write(at: nat, s: string)
      requires at + |s| <= data.Length
      modifies data
      ensures data[at..at + |s|] == s
      ensures data[..at] == old(data[..at])
      ensures data[at + |s|..] == old(data[at + |s|..])
    {
      var i := 0;
      while i < |s|
        invariant i <= |s|
        invariant data[at..at + i] == s[..i]
        invariant data[..at] == old(data[..at])
        invariant data[at + i..] == old(data[at + i..])
      {
        data[at + i] := s[i];
        i := i + 1;
      }
    }

    /** cookie_insert: put ins in front of the text at `at`. */
    method InsertText(at: nat, ins: string, ghost t: string)
      requires Holds(t) && at <= |t| && IsCString(ins) && |t| + |ins| < maxLen
      modifies data
      ensures Holds(t[..at] + ins + t[at..])
    {
      var n := StrLen(t);
      var buff := data[at..n] + "\0";
      assert buff == t[at..] + "\0";
      Write(at, ins);
      assert data[..at + |ins|] == t[..at] + ins by {
        assert data[..at + |ins|] == data[..at] + data[at..at + |ins|];
      }
      ghost var head := data[..at + |ins|];
      Write(at + |ins|, buff);
      TwoParts(data[..], head, t[at..], buff);
    }

    static lemma TwoParts(all: string, head: string, tail: string, buff: string)
      requires buff == tail + "\0" && |head| + |buff| <= |all|
      requires all[..|head|] == head && all[|head|..|head| + |buff|] == buff
      ensures all[..|head| + |tail|] == head + tail && all[|head| + |tail|] == '\0'
    {
      assert all[|head|..|head| + |buff|][|tail|] == buff[|tail|];
      assert all[..|head| + |tail|] == all[..|head|] + all[|head|..|head| + |buff|][..|tail|];
    }

    /** cookie_delete: drop pos bytes of the text at `at`. */
    method DeleteText(at: nat, pos: nat, ghost t: string)
      requires Holds(t) && at + pos <= |t|
      modifies data
      ensures Holds(t[..at] + t[at + pos..])
    {
      var n := StrLen(t);
      var buff := data[at + pos..n] + "\0";
      assert buff == t[at + pos..] + "\0";
      Write(at, buff);
      ghost var out := t[..at] + t[at + pos..];
      assert data[..at] == t[..at];
      assert data[at..at + |buff|] == buff;
      assert data[..|out|] == data[..at] + data[at..|out|];
      assert data[at..|out|] == buff[..|buff| - 1];
      assert data[|out|] == buff[|buff| - 1];
    }

    /** memmove(data + dst, data + src, len), the write point behind the read. */
    method MoveDown(dst: nat, src: nat, len: nat)
      requires dst <= src && src + len <= data.Length
      modifies data
      ensures data[..dst] == old(data[..dst])
      ensures data[dst..dst + len] == old(data[src..src + len])
      ensures data[src + len..] == old(data[src + len..])
    {
      var i := 0;
      while i < len
        invariant i <= len
        invariant data[..dst] == old(data[..dst])
        invariant data[dst..dst + i] == old(data[src..src + i])
        invariant data[src + i..] == old(data[src + i..])
      {
        data[dst + i] := data[src + i];
        i := i + 1;
      }
    }
 
    // ---- finding records ----

    /** cookie_find_exact on the text of the jar. */
    static method FindRecord(text: string, ghost rs: seq<Rec>, name: string, domain: string, path: string)
      returns (found: bool, at: nat, ghost i: int)
      requires AllStorable(rs) && text == Text(rs)
      ensures i == FindExact(rs, name, domain, path) && (found <==> i >= 0)
      ensures found ==> at == |Text(rs[..i])| < |text|
    {
      i, at, found := 0, 0, false;
      StartOfJar(rs, name, domain, path);
      while at < |text|
        invariant 0 <= i <= |rs| && at == |Text(rs[..i])| <= |text| && (at < |text| <==> i < |rs|)
        invariant FindExact(rs[..i], name, domain, path) == -1
        decreases |rs| - i
      {
        var dom, recPath, recName, next := ReadRecord(text, at, rs, i);
        SelfStep(rs, i, name, domain, path);
        if recName == name && SameDomain(dom, domain) && recPath == path {
          FoundIsFirst(rs, i, name, domain, path);
          found := true;
          return;
        }
        at, i := next, i + 1;
        AtEnd(rs, i);
      }
      assert rs[..i] == rs;
      i := -1;
    }

    static lemma FoundIsFirst(rs: seq<Rec>, i: nat, name: string, domain: string, path: string)
      requires i < |rs| && FindExact(rs[..i], name, domain, path) == -1 && IsSelf(rs[i], name, domain, path)
      ensures FindExact(rs, name, domain, path) == i
    {
      forall j | 0 <= j < i
        ensures !IsSelf(rs[j], name, domain, path)
      {
        assert rs[..i][j] == rs[j];
      }
    }

    /** The place of a path of plen bytes: past the last record that is at least as long. */
    static method FindPlace(text: string, ghost rs: seq<Rec>, plen: nat) returns (insert: nat, ghost p: nat)
      requires AllStorable(rs) && text == Text(rs)
      ensures p == Place(rs, plen) && insert == |Text(rs[..p])| <= |text|
    {
      var a := 0;
      insert, p := 0, 0;
      StartOfJar(rs, "", "", "");
      while a < |text|
        invariant p <= |rs| && insert == |Text(rs[..p])| <= |text|
        invariant forall j :: 0 <= j < p ==> |rs[j].path| >= plen
        invariant (a == insert && (a < |text| <==> p < |rs|)) || (a == |text| && p < |rs| && |rs[p].path| < plen)
        decreases |text| - a
      {
        var _, recPath, _, next := ReadRecord(text, a, rs, p);
        if |recPath| < plen {
          a := |text|;
        } else {
          a := next;
          insert, p := a, p + 1;
          AtEnd(rs, p);
        }
      }
      PlaceIs(rs, plen, p);
    }

    static lemma {:induction false} PlaceIs(rs: seq<Rec>, plen: nat, p: nat)
      requires p <= |rs| && (p < |rs| ==> |rs[p].path| < plen)
      requires forall j :: 0 <= j < p ==> |rs[j].path| >= plen
      ensures Place(rs, plen) == p
    {
    }
 
    // ---- making room ----

    /** One step of the cut: the record at a moves down to dst, or goes. */
    method CutOne(dst: nat, a: nat, end: nat, evict: bool, ghost kept: string, ghost line: string, ghost tail: string)
      returns (dst': nat, next: nat)
      requires dst <= a <= end < data.Length && data[..dst] == kept
      requires data[a..end] == line + tail && data[end] == '\0' && NextField(line + tail, 0) == |line| > 0
      modifies data
      ensures next == a + |line| && dst' <= next <= end
      ensures data[..dst'] == kept + if evict then "" else line
      ensures data[next..end] == tail && data[end] == '\0'
    {
      var len := NextField(data[a..end], 0);
      next := a + len;
      dst' := dst;
      ghost var text := data[a..end];
      assert data[a..next] == text[..len] == line;
      assert data[next..end] == text[len..] == tail;
      if !evict {
        KeepLine(dst, a, next, end, kept, line, tail);
        dst' := dst + len;
      }
    }

    /** The line from a to next goes behind what is kept. */
    method KeepLine(dst: nat, a: nat, next: nat, end: nat, ghost kept: string, ghost line: string, ghost tail: string)
      requires dst <= a <= next <= end < data.Length && data[..dst] == kept
      requires data[a..next] == line && data[next..end] == tail && data[end] == '\0'
      modifies data
      ensures data[..dst + |line|] == kept + line
      ensures data[next..end] == tail && data[end] == '\0'
    {
      ghost var rest := data[next..];
      var len := next - a;
      if dst != a {
        MoveDown(dst, a, len);
      }
      assert data[next..] == rest;
      assert data[next..end] == rest[..end - next] && data[end] == rest[end - next];
      assert data[..dst + len] == data[..dst] + data[dst..dst + len];
    }

    /** The survivors move down over the victims. */
    method CutVictims(evict: seq<bool>, ghost rs: seq<Rec>, ghost gone: set<nat>)
      requires AllStorable(rs) && Holds(Text(rs)) && |evict| == |rs|
      requires forall i :: 0 <= i < |rs| ==> (evict[i] <==> i in gone)
      modifies data
      ensures Holds(Text(Keep(rs, gone)))
    {
      var end := StrLen(Text(rs));
      var dst: nat, a: nat, i: nat := 0, 0, 0;
      StartOfJar(rs, "", "", "");
      KeepNothing(rs[..0], gone);
      assert rs[0..] == rs && data[0..end] == data[..end];
      while a < end
        invariant i <= |rs| && a == |Text(rs[..i])| <= end == |Text(rs)| && (a < end <==> i < |rs|)
        invariant dst <= a && end < data.Length && data[..dst] == Text(Keep(rs[..i], gone))
        invariant data[a..end] == Text(rs[i..]) && data[end] == '\0'
        decreases end - a
      {
        TailText(rs, i);
        TailNext(rs, i);
        KeepText(rs, i, gone);
        TextSplit(rs, i);
        dst, a := CutOne(dst, a, end, evict[i], Text(Keep(rs[..i], gone)), Line(rs[i]), Text(rs[i + 1..]));
        i := i + 1;
        AtEnd(rs, i);
      }
      assert rs[..i] == rs;
      ghost var kept := data[..dst];
      data[dst] := '\0';
      assert data[..dst] == kept;
      KeepStorable(rs, gone);
      TextNoNul(Keep(rs, gone));
    }

    static lemma KeepStorable(rs: seq<Rec>, gone: set<nat>)
      requires AllStorable(rs)
      ensures AllStorable(Keep(rs, gone))
    {
    }
 
    /** With nothing out, the plan's tally is the text less the replaced record. */
    static lemma UsedAtFirst(rs: seq<Rec>, d: Demand)
      requires d.items == Items(rs) && -1 <= d.self < |rs|
      ensures UsedBy(d, {}, |rs|) == |Text(rs)| - if d.self < 0 then 0 else d.items[d.self].len
    {
      UsedIsText(d, rs, {});
      KeepNone(rs);
    }

    /** The plan of cookie_make_room: the records to cut, by place, or failure. */
    method PlanVictims(ghost rs: seq<Rec>, r: Rec, need: nat)
      returns (ok: bool, evict: seq<bool>, ghost vs: seq<nat>)
      requires AllStorable(rs) && Holds(Text(rs)) && need == Need(r) <= maxLen
      ensures ok ==> Plan(DemandOf(rs, maxLen, r)) == Some(vs) && |evict| == |rs| && Marked(evict, vs)
      ensures !ok ==> Plan(DemandOf(rs, maxLen, r)) == None
    {
      ghost var d := DemandOf(rs, maxLen, r);
      vs := [];
      var recLen := need - COOKIE_HEADROOM;
      var total := StrLen(Text(rs));
      var text := data[..total];
      var n := CountRecords(text, rs);
      var hosts, recs, self := TallyJar(text, rs, n, r.domain, r.name, r.path, recLen, d);
      UsedAtFirst(rs, d);
      var used := total - self.len;
      var over, freeable := OverHosts(hosts, recLen, self.len, d);
      if used > maxLen - need + freeable {
        EarlyExitIsSafe(d);
        return false, [], vs;
      }
      RecsDistinct(d, recs);
      var sorted := SortRecs(recs);
      SortedIsRanked(d, recs, sorted);
      var stretched := SetStretches(hosts, sorted);
      ok, evict, vs := PickVictims(stretched, sorted, over, self.pos, used, maxLen - need, d);
    }

    static lemma RecsDistinct(d: Demand, recs: seq<PlanRec>)
      requires RecsAre(d, |d.items|, Hosts(d), recs)
      ensures forall x, y :: 0 <= x < y < |recs| ==> recs[x].pos != recs[y].pos
    {
      forall x | 0 <= x < |recs|
        ensures recs[x].pos == x
      {
        assert RecIs(d, Hosts(d), recs[x], x);
      }
    }

    /** cookie_make_room: evict by the plan, or leave every byte as it was. */
    method MakeRoom(r: Rec, need: nat, oom: bool) returns (ok: bool)
      requires Valid() && need == Need(r)
      modifies this, data
      ensures Valid()
      ensures ok <==> need <= maxLen && !oom && Plan(DemandOf(old(jar).recs, maxLen, r)).Some?
      ensures ok ==> jar == Evict(old(jar), SetOf(Plan(DemandOf(old(jar).recs, maxLen, r)).value))
      ensures !ok ==> jar == old(jar) && data[..] == old(data[..])
    {
      if need > maxLen || oom {
        return false;
      }
      var evict;
      ghost var vs;
      ok, evict, vs := PlanVictims(jar.recs, r, need);
      if ok {
        CutVictims(evict, jar.recs, SetOf(vs));
        EvictKeeps(jar, maxLen, SetOf(vs));
        jar := Evict(jar, SetOf(vs));
      }
    }

    // ---- the operations ----

    /** The room test of cookie_set and cookie_fits. */
    method Fits(ghost rs: seq<Rec>, r: Rec, need: nat)
      returns (fits: bool, found: bool, at: nat, len: nat, ghost i: int)
      requires AllStorable(rs) && Holds(Text(rs)) && need == Need(r)
      ensures fits <==> HasRoom(rs, maxLen, r)
      ensures i == FindExact(rs, r.name, r.domain, r.path) && (found <==> i >= 0)
      ensures found ==> at == |Text(rs[..i])| && len == |Line(rs[i])| && at + len <= |Text(rs)|
      ensures !found ==> len == 0
    {
      var total := StrLen(Text(rs));
      var text := data[..total];
      found, at, i := FindRecord(text, rs, r.name, r.domain, r.path);
      len := 0;
      if found {
        RecordAt(rs, i);
        len := NextField(text, at) - at;
      }
      var used := total - len;
      fits := need <= maxLen && used <= maxLen - need;
    }

    /** Delete the record found at `at`. */
    method DropRec(at: nat, len: nat, ghost i: nat)
      requires Valid() && i < |jar.recs|
      requires at == |Text(jar.recs[..i])| && len == |Line(jar.recs[i])|
      modifies this, data
      ensures Valid() && jar == Drop(old(jar), i)
    {
      DropKeeps(jar, maxLen, i);
      RestAfter(jar.recs, i);
      DeleteText(at, len, Text(jar.recs));
      jar := Drop(jar, i);
    }

    /** Insert the printed record cook, its identity being free and the room known. */
    method PlaceRec(r: Rec, cook: string)
      requires Valid() && Storable(r) && cook == Line(r) && Need(r) <= maxLen && |Text(jar.recs)| <= maxLen - Need(r)
      requires forall i :: 0 <= i < |jar.recs| ==> IdOf(jar.recs[i]) != IdOf(r)
      modifies this, data
      ensures Valid() && jar == Insert(old(jar), r)
    {
      InsertKeeps(jar, maxLen, r);
      var total := StrLen(Text(jar.recs));
      var insert, p := FindPlace(data[..total], jar.recs, |r.path|);
      PutBack(jar.recs, p, r);
      LineNoNul(r);
      InsertText(insert, cook, Text(jar.recs));
      jar := Insert(jar, r);
    }

    static lemma LineNoNul(r: Rec)
      requires Storable(r)
      ensures IsCString(Line(r))
    {
      FieldsClean(r);
      JoinNoNewline(Fields(r));
    }

    static lemma RestAfter(rs: seq<Rec>, i: nat)
      requires AllStorable(rs) && i < |rs|
      ensures |Text(rs[..i])| + |Line(rs[i])| <= |Text(rs)|
      ensures Text(rs)[..|Text(rs[..i])|] + Text(rs)[|Text(rs[..i])| + |Line(rs[i])|..] == Text(Without(rs, i))
    {
      TextDrop(rs, i);
      TextSplit(rs, i);
      Middle(Text(rs[..i]), Line(rs[i]), Text(rs[i + 1..]), Text(rs));
    }

    static lemma Middle(a: string, b: string, c: string, t: string)
      requires t == a + b + c
      ensures t[..|a|] == a && t[|a| + |b|..] == c
    {
    }

    static lemma PutBack(rs: seq<Rec>, p: nat, r: Rec)
      requires p <= |rs|
      ensures |Text(rs[..p])| <= |Text(rs)|
      ensures Text(rs)[..|Text(rs[..p])|] + Line(r) + Text(rs)[|Text(rs[..p])|..] == Text(InsertAt(rs, p, r))
      ensures |Text(rs)| + |Line(r)| == |Text(InsertAt(rs, p, r))|
    {
      TextInsert(rs, p, r);
      TextConcat(rs[..p], rs[p..]);
      assert rs == rs[..p] + rs[p..];
    }
 
    /** What the jar holds beside the record that r replaces. */
    static lemma OldIsFree(s: JarState, maxLen: nat, r: Rec)
      requires JarOk(s, maxLen) && HasRoom(s.recs, maxLen, r)
      ensures |Text(Remove(s, r.name, r.domain, r.path).recs)| <= maxLen - Need(r)
    {
      var i := FindExact(s.recs, r.name, r.domain, r.path);
      if i >= 0 {
        TextDrop(s.recs, i);
      }
    }

    /** cookie_set_impl. host is what cookie_host makes of the domain, or None
        when it refuses it, and suffix says whether host is a public suffix; oom
        says that the eviction plan gets no memory. The result is 0, or -1 for a
        refusal, which leaves every byte of the buffer as it was. */
    method SetImpl(host: Option<string>, suffix: bool, name: string, value: string, path: string,
                   attr: Option<Attr>, capHost: bool, oom: bool)
      returns (rc: int)
      requires Valid()
      requires IsCString(name) && IsCString(value) && IsCString(path)
      requires host.Some? ==> IsCString(host.value) && 0 < |host.value| < COOKIE_MAX_DOMAIN
      modifies this, data
      ensures Valid() && (rc == 0 || rc == -1)
      ensures host.None? ==> rc == -1
      ensures host.Some? ==>
                var r := NewRec(host.value, suffix, name, value, path, attr.GetOr(SESSION));
                var next := if capHost && !oom then SetCapped(old(jar), maxLen, r) else SetPlain(old(jar), maxLen, r);
                (rc == 0 <==> next.Some?) && (rc == 0 ==> jar == next.value)
      ensures rc == -1 ==> jar == old(jar) && data[..] == old(data[..])
    {
      if host.None? {
        return -1;
      }
      var domain := host.value;
      if !NoBreak(name) || !NoBreak(value) || !NoBreak(domain) || !NoBreak(path) {
        return -1;
      }
      if |name| > COOKIE_MAX_PAIR || |value| > COOKIE_MAX_PAIR - |name| {
        return -1;
      }
      if |path| > COOKIE_MAX_PATH {
        return -1;
      }
      var r := NewRec(domain, suffix, name, value, path, attr.GetOr(SESSION));
      var need := |value| + |name| + |domain| + |path| + COOKIE_HEADROOM;
      if capHost {
        EvictFor(r, need, oom);
      }
      rc := StoreIfRoom(r, need);
    }

    /** The room test leaves the printed line more than it needs. */
    static lemma BackstopIdle(used: nat, maxLen: nat, r: Rec)
      requires Need(r) <= maxLen && used <= maxLen - Need(r)
      ensures used < maxLen && |Line(r)| + 210 <= maxLen - used
    {
      LineFits(r);
    }

    /** Make room for r when there is none. Either the jar then has room for it,
        or nothing changed. */
    method EvictFor(r: Rec, need: nat, oom: bool)
      requires Valid() && Storable(r) && need == Need(r)
      modifies this, data
      ensures Valid()
      ensures !oom ==> SetCapped(old(jar), maxLen, r) == SetPlain(jar, maxLen, r)
      ensures oom ==> jar == old(jar)
      ensures !HasRoom(jar.recs, maxLen, r) ==> jar == old(jar) && data[..] == old(data[..])
    {
      var fits, _, _, _, _ := Fits(jar.recs, r, need);
      if !fits {
        var made := MakeRoom(r, need, oom);
        if made {
          PlanGivesRoom(old(jar), maxLen, r, Plan(DemandOf(old(jar).recs, maxLen, r)).value);
        }
      }
    }

    /** Replace or insert r if there is room. The last test is the code's backstop
        on the printed length, which the first makes impossible. */
    method StoreIfRoom(r: Rec, need: nat) returns (rc: int)
      requires Valid() && Storable(r) && need == Need(r)
      modifies this, data
      ensures Valid() && (rc == 0 || rc == -1)
      ensures rc == 0 <==> HasRoom(old(jar).recs, maxLen, r)
      ensures rc == 0 ==> jar == Store(old(jar), r)
      ensures rc == -1 ==> jar == old(jar) && data[..] == old(data[..])
    {
      var fits, found, at, len, i := Fits(jar.recs, r, need);
      if !fits {
        return -1;
      }
      OldIsFree(jar, maxLen, r);
      RemoveIsGone(jar, maxLen, r.name, r.domain, r.path);
      var cook := Line(r);
      var total := StrLen(Text(jar.recs));
      var used := total - len;
      BackstopIdle(used, maxLen, r);
      if used >= maxLen || |cook| >= maxLen - used {
        assert false;
        return -1;
      }
      if found {
        DropRec(at, len, i);
      }
      PlaceRec(r, cook);
      rc := 0;
    }

    /** cookie_remove. */
    method Erase(host: Option<string>, name: string, path: string) returns (rc: int)
      requires Valid()
      modifies this, data
      ensures Valid() && rc == 0
      ensures jar == if host.None? then old(jar) else Remove(old(jar), name, host.value, path)
    {
      rc := 0;
      if host.None? {
        return;
      }
      var total := StrLen(Text(jar.recs));
      var text := data[..total];
      var found, at, i := FindRecord(text, jar.recs, name, host.value, path);
      if found {
        RecordAt(jar.recs, i);
        DropRec(at, NextField(text, at) - at, i);
      }
    }
  }
}
