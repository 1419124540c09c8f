/** The command line being rebuilt: three arrays that grow side by side, over
    tokens that live in an arena. */
module Cmdl {
  import opened Wrappers
  import opened Bytes
  import opened Arena

  const MAX_SLOTS := 0x7FFF_FFFF / 8

  /** A token, whether it is another option's parameter, and its span. */
  datatype Row = Row(text: seq<Byte>, param: bool, span: int)

  function Inserted<T>(s: seq<T>, pos: nat, x: T): seq<T>
    requires pos <= |s|
  {
    s[..pos] + [x] + s[pos..]
  }

  /** Each token is a string block of the arena. */
  ghost predicate Owned(blocks: seq<Block>, owner: seq<nat>, argv: seq<nat>) {
    |owner| == |argv| && forall i :: 0 <= i < |owner| ==> OwnedAt(blocks, owner[i], argv[i])
  }

  ghost predicate OwnedAt(blocks: seq<Block>, k: nat, at: nat) {
    k < |blocks| && blocks[k].at == at && blocks[k].text.Some?
  }

  ghost function Build(blocks: seq<Block>, owner: seq<nat>, params: seq<bool>, spans: seq<int>): (rows: seq<Row>)
    requires |owner| == |params| == |spans|
    requires forall i :: 0 <= i < |owner| ==> owner[i] < |blocks| && blocks[owner[i]].text.Some?
    ensures |rows| == |owner|
    ensures forall i :: 0 <= i < |rows| ==> rows[i] == Row(blocks[owner[i]].text.value, params[i], spans[i])
  {
    if owner == [] then [] else
    [Row(blocks[owner[0]].text.value, params[0], spans[0])] + Build(blocks, owner[1..], params[1..], spans[1..])
  }

  lemma OwnedInserted(blocks: seq<Block>, owner: seq<nat>, argv: seq<nat>, pos: nat, k: nat, at: nat)
    requires Owned(blocks, owner, argv) && pos <= |owner| && OwnedAt(blocks, k, at)
    ensures Owned(blocks, Inserted(owner, pos, k), Inserted(argv, pos, at))
  {
    var o, a := Inserted(owner, pos, k), Inserted(argv, pos, at);
    forall i | 0 <= i < |o| ensures OwnedAt(blocks, o[i], a[i]) {
      assert i < pos ==> OwnedAt(blocks, owner[i], argv[i]);
      assert i > pos ==> OwnedAt(blocks, owner[i - 1], argv[i - 1]);
    }
  }

  lemma RowsInserted(blocks: seq<Block>, owner: seq<nat>, argv: seq<nat>, params: seq<bool>, spans: seq<int>, pos: nat,
                     k: nat, at: nat)
    requires Owned(blocks, owner, argv) && |params| == |spans| == |owner| && pos <= |owner| && OwnedAt(blocks, k, at)
    ensures Owned(blocks, Inserted(owner, pos, k), Inserted(argv, pos, at))
    ensures Build(blocks, Inserted(owner, pos, k), Inserted(params, pos, false), Inserted(spans, pos, 0))
         == Inserted(Build(blocks, owner, params, spans), pos, Row(blocks[k].text.value, false, 0))
  {
    OwnedInserted(blocks, owner, argv, pos, k, at);
  }

  lemma OwnedStays(was: seq<Block>, now: seq<Block>, owner: seq<nat>, argv: seq<nat>, params: seq<bool>,
                   spans: seq<int>)
    requires Owned(was, owner, argv) && was <= now && |params| == |spans| == |owner|
    ensures Owned(now, owner, argv) && Build(now, owner, params, spans) == Build(was, owner, params, spans)
  {
    forall i | 0 <= i < |owner| ensures OwnedAt(now, owner[i], argv[i]) {
      assert OwnedAt(was, owner[i], argv[i]);
    }
  }

  /** Is there room for `count` slots, or memory for it in all three arrays? */
  predicate HasSlots(capacity: nat, count: nat, mem: (bool, bool, bool)) {
    count <= capacity || (count <= MAX_SLOTS && mem.0 && mem.1 && mem.2)
  }

  /** Does the arena have room for a token, or memory for one more chunk? */
  predicate HasTokenRoom(s: State, token: seq<Byte>, malloc: nat -> Option<nat>) {
    Fits(s, |token| + 1, 1) || CanGrow(s, |token| + 1, malloc)
  }

  /** realloc: the new array opens with what the old one held. */
  method Move<T(0)>(a: array<T>, keep: nat, capacity: nat) returns (b: array<T>)
    requires keep <= a.Length && keep <= capacity
    ensures fresh(b) && b.Length == capacity && b[..keep] == a[..keep]
  {
    b := new T[capacity];
    for i := 0 to if a.Length < capacity then a.Length else capacity
      invariant forall k :: 0 <= k < i ==> b[k] == a[k]
    {
      b[i] := a[i];
    }
  }

  lemma ShiftedIs<T>(was: seq<T>, now: seq<T>, pos: nat, x: T)
    requires pos <= |was| && |now| == |was| + 1 && now[pos] == x
    requires forall k :: 0 <= k < pos ==> now[k] == was[k]
    requires forall k :: pos < k <= |was| ==> now[k] == was[k - 1]
    ensures now == Inserted(was, pos, x)
  {
  }

  class Argv {
    var argv: array<nat>
    var param: array<bool>
    var span: array<int>
    var argc: nat
    var capacity: nat
    const tokens: Arena
    ghost var owner: seq<nat>

    ghost predicate Valid()
      reads this, argv, param, span, tokens
    {
      SlotsOk() && tokens.Valid()
    }

    ghost predicate SlotsOk()
      reads this, argv, param, span, tokens
    {
      && argc <= capacity <= MAX_SLOTS
      && capacity <= argv.Length && capacity <= param.Length && capacity <= span.Length
      && Separate() && Owned(tokens.blocks, owner, argv[..argc])
    }

    ghost function Rows(): (rows: seq<Row>)
      reads this, argv, param, span, tokens
      requires SlotsOk()
      ensures |rows| == argc
    {
      assert forall i :: 0 <= i < argc ==> OwnedAt(tokens.blocks, owner[i], argv[..argc][i]);
      Build(tokens.blocks, owner, param[..argc], span[..argc])
    }

    constructor (slots: nat)
      requires slots <= MAX_SLOTS
      ensures Valid() && Rows() == [] && fresh(argv) && fresh(param) && fresh(span) && fresh(tokens)
    {
      argv, param, span := new nat[slots], new bool[slots], new int[slots];
      argc, capacity, owner := 0, slots, [];
      tokens := new Arena();
    }

    /** cmdl_reserve: room for `count` slots. `mem` says which of the three arrays
        can be had; an array that grew stays grown when a later one did not. */
    method Reserve(count: nat, mem: (bool, bool, bool)) returns (ok: bool)
      requires SlotsOk()
      modifies this`argv, this`param, this`span, this`capacity
      ensures SlotsOk() && Rows() == old(Rows())
      ensures argv == old(argv) || fresh(argv)
      ensures param == old(param) || fresh(param)
      ensures span == old(span) || fresh(span)
      ensures ok ==> count <= capacity
      ensures ok == HasSlots(old(capacity), count, mem)
    {
      if count <= capacity {
        return true;
      }
      if count > MAX_SLOTS {
        return false;
      }
      var wanted := if capacity <= MAX_SLOTS / 2 then capacity * 2 else MAX_SLOTS;
      if wanted < count {
        wanted := count;
      }
      if !mem.0 {
        return false;
      }
      argv := Move(argv, argc, wanted);
      if !mem.1 {
        return false;
      }
      param := Move(param, argc, wanted);
      if !mem.2 {
        return false;
      }
      span := Move(span, argc, wanted);
      capacity := wanted;
      return true;
    }

    ghost predicate Separate()
      reads this`argv, this`param, this`span
    {
      (argv as object) != span && (argv as object) != param && (param as object) != span
    }

    /** The slots from pos on move up by one. */
    method ShiftUp(pos: nat)
      requires pos <= argc < argv.Length && argc < param.Length && argc < span.Length && Separate()
      modifies argv, param, span
      ensures forall k :: 0 <= k < pos ==>
                argv[k] == old(argv[k]) && param[k] == old(param[k]) && span[k] == old(span[k])
      ensures forall k :: pos < k <= argc ==>
                argv[k] == old(argv[k - 1]) && param[k] == old(param[k - 1]) && span[k] == old(span[k - 1])
    {
      for i := argc downto pos
        invariant forall k :: 0 <= k <= i && k < argc ==>
                    argv[k] == old(argv[k]) && param[k] == old(param[k]) && span[k] == old(span[k])
        invariant forall k :: i < k <= argc ==>
                    argv[k] == old(argv[k - 1]) && param[k] == old(param[k - 1]) && span[k] == old(span[k - 1])
      {
        argv[i + 1] := argv[i];
        param[i + 1] := param[i];
        span[i + 1] := span[i];
      }
    }

    /** They do, and the new slot is filled. */
    method Shift(pos: nat, at: nat)
      requires pos <= argc < argv.Length && argc < param.Length && argc < span.Length && Separate()
      modifies argv, param, span
      ensures argv[..argc + 1] == Inserted(old(argv[..argc]), pos, at)
      ensures param[..argc + 1] == Inserted(old(param[..argc]), pos, false)
      ensures span[..argc + 1] == Inserted(old(span[..argc]), pos, 0)
    {
      ghost var was1, was2, was3 := argv[..argc], param[..argc], span[..argc];
      ShiftUp(pos);
      argv[pos], param[pos], span[pos] := at, false, 0;
      ShiftedIs(was1, argv[..argc + 1], pos, at);
      ShiftedIs(was2, param[..argc + 1], pos, false);
      ShiftedIs(was3, span[..argc + 1], pos, 0);
    }

    /** cmdl_ins: on success the token is inserted at pos, neither a parameter nor
        with a span; on failure the command line is as it was. */
    method Insert(token: seq<Byte>, pos: nat, mem: (bool, bool, bool), malloc: nat -> Option<nat>) returns (ok: bool)
      requires Valid() && pos <= argc && MallocOk(tokens.View(), malloc)
      modifies this, argv, param, span, tokens
      ensures Valid()
      ensures argv == old(argv) || fresh(argv)
      ensures param == old(param) || fresh(param)
      ensures span == old(span) || fresh(span)
      ensures ok == (HasSlots(old(capacity), old(argc) + 1, mem) && HasTokenRoom(old(tokens.View()), token, malloc))
      ensures argc == old(argc) + if ok then 1 else 0
      ensures Rows() == if ok then Inserted(old(Rows()), pos, Row(token, false, 0)) else old(Rows())
    {
      ok := Reserve(argc + 1, mem);
      if !ok {
        return;
      }
      var copy := CopyToken(token, malloc);
      if copy == None {
        return false;
      }
      Place(token, pos, copy.value);
    }

    method CopyToken(token: seq<Byte>, malloc: nat -> Option<nat>) returns (at: Option<nat>)
      requires Valid() && MallocOk(tokens.View(), malloc)
      modifies tokens
      ensures Valid() && Rows() == old(Rows())
      ensures at.Some? == HasTokenRoom(old(tokens.View()), token, malloc)
      ensures at.Some? ==> IsNewest(at.value, token)
    {
      ghost var was := tokens.blocks;
      at := tokens.StrDup(token, malloc);
      OwnedStays(was, tokens.blocks, owner, argv[..argc], param[..argc], span[..argc]);
    }

    /** The newest block of the arena is this token. */
    ghost predicate IsNewest(at: nat, token: seq<Byte>)
      reads tokens
    {
      && |tokens.blocks| > 0 && OwnedAt(tokens.blocks, |tokens.blocks| - 1, at)
      && tokens.blocks[|tokens.blocks| - 1].text == Some(token)
    }

    /** The copy goes into its slot, and the slots behind move up. */
    method Place(token: seq<Byte>, pos: nat, at: nat)
      requires SlotsOk() && pos <= argc < capacity && IsNewest(at, token)
      modifies this`argc, this`owner, argv, param, span
      ensures SlotsOk() && argc == old(argc) + 1 && Rows() == Inserted(old(Rows()), pos, Row(token, false, 0))
    {
      ghost var k: nat := |tokens.blocks| - 1;
      RowsInserted(tokens.blocks, owner, argv[..argc], param[..argc], span[..argc], pos, k, at);
      Shift(pos, at);
      argc := argc + 1;
      owner := Inserted<nat>(owner, pos, k);
    }

    /** cmdl_add. */
    method Add(token: seq<Byte>, mem: (bool, bool, bool), malloc: nat -> Option<nat>) returns (ok: bool)
      requires Valid() && MallocOk(tokens.View(), malloc)
      modifies this, argv, param, span, tokens
      ensures Valid()
      ensures ok == (HasSlots(old(capacity), old(argc) + 1, mem) && HasTokenRoom(old(tokens.View()), token, malloc))
      ensures Rows() == if ok then old(Rows()) + [Row(token, false, 0)] else old(Rows())
    {
      ghost var rows := Rows();
      ok := Insert(token, argc, mem, malloc);
      assert rows[..|rows|] == rows && rows[|rows|..] == [];
    }

    /** cmdl_mark_param. */
    method MarkParam(pos: nat)
      requires SlotsOk() && pos < argc
      modifies param
      ensures SlotsOk() && Rows() == old(Rows())[pos := old(Rows())[pos].(param := true)]
    {
      param[pos] := true;
      assert Rows() == old(Rows())[pos := old(Rows())[pos].(param := true)];
    }
  }
}
