/** The threading loop of `main` in incident.c: it walks the tagged program
    once and links every command incidence to the incidence that follows it
    in the text, storing the link in the slot the previous incidence chose
    (post_pop0 after a first incidence, post_push after a middle one,
    post_pop1 after a last one).  In fragment mode a `$` byte ends the chain. */
module Threading {
  import opened Common

  /** The bytes `$` and `^` that delimit fragments. */
  const Dollar := 36
  const Caret := 94

  /** Where control goes after each outcome of a command. */
  datatype Links = Links(postPop0: int, postPop1: int, postPush: int)

  /** The slot `store_next_command_in` points to; Nowhere is its NULL. */
  datatype Slot = Nowhere | FirstSlot | Pop0Slot(c: int) | PushSlot(c: int) | Pop1Slot(c: int)

  /** The threading loop's state: first_incidence, the commands' links and the pointer. */
  datatype Builder = Builder(first: int, links: seq<Links>, store: Slot)

  /** The finished control-flow graph. */
  datatype Graph = Graph(first: int, links: seq<Links>)

  /** The loop exactly as incident.c writes it, or with its two fragment-mode
      slips corrected (see the Findings of the README). */
  datatype Variant = AsWritten | Corrected

  /** Each command tag names one of the `entries` commands of the array. */
  predicate TagsInRange(t: seq<int>, entries: int)
  {
    forall i :: 0 <= i < |t| && t[i] > 2 ==> t[i] / 3 < entries
  }

  predicate SlotInRange(x: Slot, n: int)
  {
    match x
    case Pop0Slot(c) => 0 <= c < n
    case PushSlot(c) => 0 <= c < n
    case Pop1Slot(c) => 0 <= c < n
    case _ => true
  }

  /** The slot an incidence designates for its successor. */
  function SlotAfter(tag: int): (r: Slot)
    requires tag > 2
    ensures r != Nowhere && r != FirstSlot
  {
    if tag % 3 == 0 then Pop0Slot(tag / 3)
    else if tag % 3 == 1 then PushSlot(tag / 3)
    else Pop1Slot(tag / 3)
  }

  lemma SlotAfterInjective(x: int, y: int)
    requires x > 2 && y > 2 && x != y
    ensures SlotAfter(x) != SlotAfter(y)
  {
  }

  /** The value in slot x; NULL, and a slot outside the array, read as 0. */
  function Read(first: int, links: seq<Links>, x: Slot): int
  {
    match x
    case Nowhere => 0
    case FirstSlot => first
    case Pop0Slot(c) => if 0 <= c < |links| then links[c].postPop0 else 0
    case PushSlot(c) => if 0 <= c < |links| then links[c].postPush else 0
    case Pop1Slot(c) => if 0 <= c < |links| then links[c].postPop1 else 0
  }

  /** `*store_next_command_in = v`; only ever applied to a slot inside the array. */
  function Store(b: Builder, v: int): (r: Builder)
    ensures |r.links| == |b.links| && r.store == b.store
  {
    match b.store
    case Nowhere => b
    case FirstSlot => b.(first := v)
    case Pop0Slot(c) => if 0 <= c < |b.links| then b.(links := b.links[c := b.links[c].(postPop0 := v)]) else b
    case PushSlot(c) => if 0 <= c < |b.links| then b.(links := b.links[c := b.links[c].(postPush := v)]) else b
    case Pop1Slot(c) => if 0 <= c < |b.links| then b.(links := b.links[c := b.links[c].(postPop1 := v)]) else b
  }

  /** The builder after a `$`: the pending slot is closed with 0 (a halt) and nothing is pending. */
  function Halt(b: Builder): (r: Builder)
    ensures |r.links| == |b.links| && r.store == Nowhere
  {
    Store(b, 0).(store := Nowhere)
  }

  /** The builder after the first byte of a command run: the pending slot receives the run's tag
      and the slot this command designates becomes pending. */
  function Advance(b: Builder, tag: int): (r: Builder)
    requires tag > 2
    ensures |r.links| == |b.links| && r.store == SlotAfter(tag)
  {
    Store(b, tag).(store := SlotAfter(tag))
  }

  /** Storing v changes the designated slot and no other. */
  lemma StoreReads(b: Builder, v: int)
    requires b.store != Nowhere && SlotInRange(b.store, |b.links|)
    ensures forall x :: Read(Store(b, v).first, Store(b, v).links, x) == if x == b.store then v else Read(b.first, b.links, x)
  {
  }

  /** The byte the skip loop tests against `$`: the source tests the tag. */
  function StopByte(s: seq<Byte>, t: seq<int>, v: Variant, k: int): int
    requires |s| == |t| && 0 <= k < |t|
  {
    if v == AsWritten then t[k] else s[k]
  }

  /** Where "skip future bytes of the command" stops, starting at byte i. */
  function RunEnd(s: seq<Byte>, t: seq<int>, frag: bool, v: Variant, i: int): (r: int)
    requires |s| == |t| && 0 <= i < |t|
    ensures i <= r < |t|
    ensures r + 1 == |t| || t[r + 1] != t[i] || (frag && StopByte(s, t, v, r + 1) == Dollar)
    decreases |t| - i
  {
    if i + 1 < |t| && t[i + 1] == t[i] && (!frag || StopByte(s, t, v, i + 1) != Dollar)
    then RunEnd(s, t, frag, v, i + 1)
    else i
  }

  /** The threading loop from byte i on; None is the write through NULL. */
  function ThreadFrom(s: seq<Byte>, t: seq<int>, frag: bool, v: Variant, i: int, b: Builder): (r: Option<Builder>)
    requires |s| == |t| && 0 <= i <= |t|
    ensures r.Some? ==> |r.value.links| == |b.links|
    ensures v == Corrected || !frag ==> r.Some?
    decreases |t| - i
  {
    if i == |t| then Some(b)
    else if frag && s[i] == Dollar then
      if b.store == Nowhere then
        if v == AsWritten then None else ThreadFrom(s, t, frag, v, i + 1, b)
      else ThreadFrom(s, t, frag, v, i + 1, Halt(b))
    else if t[i] > 2 then
      ThreadFrom(s, t, frag, v, RunEnd(s, t, frag, v, i) + 1, Advance(b, t[i]))
    else ThreadFrom(s, t, frag, v, i + 1, b)
  }

  /** The closing `if (store_next_command_in) *store_next_command_in = 0`. */
  function Finish(b: Builder): (r: Builder)
    ensures |r.links| == |b.links|
  {
    if b.store == Nowhere then b else Store(b, 0)
  }

  function Start(count: nat): Builder
  {
    Builder(0, seq(count + 1, _ => Links(0, 0, 0)), FirstSlot)
  }

  /** The graph the loop builds from program s with tags t. */
  function Threaded(s: seq<Byte>, t: seq<int>, count: nat, frag: bool, v: Variant): (r: Option<Graph>)
    requires |s| == |t| && TagsInRange(t, count + 1)
    ensures r.Some? ==> |r.value.links| == count + 1
    ensures v == Corrected || !frag ==> r.Some?
  {
    match ThreadFrom(s, t, frag, v, 0, Start(count))
    case None => None
    case Some(b) => var f := Finish(b); Some(Graph(f.first, f.links))
  }

  /** `*store_next_command_in = value` on the loop's variables. */
  method StoreInto(commands: array<Links>, store: Slot, first: int, value: int) returns (first': int)
    requires store != Nowhere && SlotInRange(store, commands.Length)
    modifies commands
    ensures Builder(first', commands[..], store) == Store(Builder(first, old(commands[..]), store), value)
  {
    first' := first;
    match store
    case FirstSlot => first' := value;
    case Pop0Slot(c) => commands[c] := commands[c].(postPop0 := value);
    case PushSlot(c) => commands[c] := commands[c].(postPush := value);
    case Pop1Slot(c) => commands[c] := commands[c].(postPop1 := value);
  }

  /** Every byte of a run carries the run's tag. */
  lemma {:induction false} RunEndSame(s: seq<Byte>, t: seq<int>, frag: bool, v: Variant, i: int, k: int)
    requires |s| == |t| && 0 <= i < |t| && i <= k <= RunEnd(s, t, frag, v, i)
    ensures t[k] == t[i]
    decreases |t| - i
  {
    if k > i {
      RunEndSame(s, t, frag, v, i + 1, k);
    }
  }

  /** No run starts strictly inside another. */
  lemma InsideRun(s: seq<Byte>, t: seq<int>, frag: bool, v: Variant, i: int)
    requires |s| == |t| && 0 <= i < |t|
    ensures forall o {:trigger IsOpener(t, o)} :: i < o <= RunEnd(s, t, frag, v, i) ==> !IsOpener(t, o)
  {
    forall o {:trigger IsOpener(t, o)} | i < o <= RunEnd(s, t, frag, v, i)
      ensures !IsOpener(t, o)
    {
      RunEndSame(s, t, frag, v, i, o - 1);
      RunEndSame(s, t, frag, v, i, o);
    }
  }

  /** A run ends before any later byte of no command. */
  lemma RunBefore(s: seq<Byte>, t: seq<int>, frag: bool, v: Variant, i: int, p: int)
    requires |s| == |t| && 0 <= i < p < |t| && t[i] > 2 && t[p] <= 2
    ensures RunEnd(s, t, frag, v, i) < p
  {
    if p <= RunEnd(s, t, frag, v, i) {
      RunEndSame(s, t, frag, v, i, p);
    }
  }

  /** "Skip future bytes of the command": from the first byte of a run, the
      index just past it. */
  method SkipRun(input: seq<Byte>, parsed: seq<int>, fragmented: bool, i0: int) returns (i: int)
    requires |input| == |parsed| && 0 <= i0 < |parsed|
    ensures i == RunEnd(input, parsed, fragmented, Corrected, i0) + 1
  {
    i := i0;
    while i + 1 < |parsed| && parsed[i + 1] == parsed[i] && (!fragmented || input[i + 1] != Dollar)
      invariant i0 <= i < |parsed|
      invariant RunEnd(input, parsed, fragmented, Corrected, i0) == RunEnd(input, parsed, fragmented, Corrected, i)
    {
      i := i + 1;
    }
    i := i + 1;
  }

  /** The threading loop's treatment of one `$` in fragment mode: the
      as-written loop stops when nothing is pending (the write through NULL). */
  lemma UnfoldDollar(s: seq<Byte>, t: seq<int>, frag: bool, v: Variant, i: int, b: Builder)
    requires |s| == |t| && 0 <= i < |t|
    requires frag && s[i] == Dollar
    ensures ThreadFrom(s, t, frag, v, i, b) ==
            if b.store == Nowhere && v == AsWritten then None else ThreadFrom(s, t, frag, v, i + 1, Halt(b))
  {
    if b.store == Nowhere {
      assert Halt(b) == b;
    }
  }

  /** The threading loop's treatment of the first byte of a command run. */
  lemma UnfoldCommand(s: seq<Byte>, t: seq<int>, frag: bool, v: Variant, i: int, b: Builder)
    requires |s| == |t| && 0 <= i < |t|
    requires !(frag && s[i] == Dollar) && t[i] > 2
    ensures ThreadFrom(s, t, frag, v, i, b) ==
            ThreadFrom(s, t, frag, v, RunEnd(s, t, frag, v, i) + 1, Advance(b, t[i]))
  {
  }

  /** The threading loop's treatment of a byte of no command. */
  lemma UnfoldNoise(s: seq<Byte>, t: seq<int>, frag: bool, v: Variant, i: int, b: Builder)
    requires |s| == |t| && 0 <= i < |t|
    requires !(frag && s[i] == Dollar) && t[i] <= 2
    ensures ThreadFrom(s, t, frag, v, i, b) == ThreadFrom(s, t, frag, v, i + 1, b)
  {
  }

  /** The loop body at a `$` in fragment mode. */
  method ThreadDollar(input: seq<Byte>, parsed: seq<int>, fragmented: bool, commands: array<Links>,
                      first: int, store: Slot, i: int)
    returns (first': int, store': Slot, i': int)
    requires |input| == |parsed| && 0 <= i < |parsed| && fragmented && input[i] == Dollar
    requires SlotInRange(store, commands.Length)
    modifies commands
    ensures i' == i + 1 && store' == Nowhere
    ensures ThreadFrom(input, parsed, fragmented, Corrected, i, Builder(first, old(commands[..]), store)) ==
            ThreadFrom(input, parsed, fragmented, Corrected, i', Builder(first', commands[..], store'))
  {
    ghost var b := Builder(first, commands[..], store);
    UnfoldDollar(input, parsed, fragmented, Corrected, i, b);
    first' := first;
    if store != Nowhere {
      first' := StoreInto(commands, store, first, 0);
    }
    store' := Nowhere;
    i' := i + 1;
  }

  /** The loop body at the first byte of a command run. */
  method ThreadCommand(input: seq<Byte>, parsed: seq<int>, fragmented: bool, commands: array<Links>,
                       first: int, store: Slot, i: int)
    returns (first': int, store': Slot, i': int)
    requires |input| == |parsed| && 0 <= i < |parsed| && !(fragmented && input[i] == Dollar)
    requires parsed[i] > 2 && parsed[i] / 3 < commands.Length
    requires SlotInRange(store, commands.Length)
    modifies commands
    ensures i < i' <= |parsed| && store' == SlotAfter(parsed[i]) && SlotInRange(store', commands.Length)
    ensures ThreadFrom(input, parsed, fragmented, Corrected, i, Builder(first, old(commands[..]), store)) ==
            ThreadFrom(input, parsed, fragmented, Corrected, i', Builder(first', commands[..], store'))
  {
    ghost var b := Builder(first, commands[..], store);
    UnfoldCommand(input, parsed, fragmented, Corrected, i, b);
    first' := first;
    if store != Nowhere {
      first' := StoreInto(commands, store, first, parsed[i]);
    }
    store' := SlotAfter(parsed[i]);
    i' := SkipRun(input, parsed, fragmented, i);
  }

  /** One pass of the threading loop's body, from byte i. */
  method ThreadByte(input: seq<Byte>, parsed: seq<int>, fragmented: bool, commands: array<Links>,
                    first: int, store: Slot, i: int)
    returns (first': int, store': Slot, i': int)
    requires |input| == |parsed| && 0 <= i < |parsed| && TagsInRange(parsed, commands.Length)
    requires SlotInRange(store, commands.Length)
    modifies commands
    ensures i < i' <= |parsed| && SlotInRange(store', commands.Length)
    ensures ThreadFrom(input, parsed, fragmented, Corrected, i, Builder(first, old(commands[..]), store)) ==
            ThreadFrom(input, parsed, fragmented, Corrected, i', Builder(first', commands[..], store'))
  {
    if fragmented && input[i] == Dollar {
      first', store', i' := ThreadDollar(input, parsed, fragmented, commands, first, store, i);
    } else if parsed[i] > 2 {
      first', store', i' := ThreadCommand(input, parsed, fragmented, commands, first, store, i);
    } else {
      UnfoldNoise(input, parsed, fragmented, Corrected, i, Builder(first, commands[..], store));
      first', store', i' := first, store, i + 1;
    }
  }

  /** "Populate a list of commands": the threading loop of main, with the
      corrections of the Findings applied. */
  method BuildCommands(input: seq<Byte>, parsed: seq<int>, commandcount: nat, fragmented: bool)
    returns (first: int, links: seq<Links>)
    requires |input| == |parsed| && TagsInRange(parsed, commandcount + 1)
    ensures Threaded(input, parsed, commandcount, fragmented, Corrected) == Some(Graph(first, links))
  {
    var commands := new Links[commandcount + 1](_ => Links(0, 0, 0));
    first := 0;
    var store := FirstSlot;
    ghost var start := Start(commandcount);
    assert commands[..] == start.links;
    var i := 0;
    while i < |parsed|
      invariant 0 <= i <= |parsed| && SlotInRange(store, commands.Length)
      invariant commands.Length == commandcount + 1
      invariant ThreadFrom(input, parsed, fragmented, Corrected, 0, start) ==
                ThreadFrom(input, parsed, fragmented, Corrected, i, Builder(first, commands[..], store))
      modifies commands
      decreases |parsed| - i
    {
      first, store, i := ThreadByte(input, parsed, fragmented, commands, first, store, i);
    }
    if store != Nowhere {
      first := StoreInto(commands, store, first, 0);
    }
    links := commands[..];
  }

  // ---------------------------------------------------------------------
  // What the threading loop computes

  /** Byte o starts a run of a command tag. */
  predicate IsOpener(t: seq<int>, o: int)
  {
    0 <= o < |t| && t[o] > 2 && (o == 0 || t[o - 1] != t[o])
  }

  /** Every command tag occupies one contiguous stretch of the text, as the
      lexer's incidences do: no byte before the start of a run carries its tag. */
  predicate Contiguous(t: seq<int>)
  {
    forall a, o {:trigger t[a], IsOpener(t, o)} :: 0 <= a < o < |t| && IsOpener(t, o) ==> t[a] != t[o]
  }

  /** In fragment mode no `$` lies inside a command incidence. */
  predicate DollarFree(s: seq<Byte>, t: seq<int>, frag: bool)
    requires |s| == |t|
  {
    frag ==> forall k :: 0 <= k < |t| && s[k] == Dollar ==> t[k] <= 2
  }

  /** Byte i is not in the middle of a command run. */
  predicate Boundary(t: seq<int>, i: int)
  {
    i <= 0 || i >= |t| || t[i - 1] <= 2 || t[i - 1] != t[i]
  }

  /** No run starting at or after i designates slot x. */
  predicate Fresh(t: seq<int>, i: int, x: Slot)
  {
    forall o {:trigger IsOpener(t, o)} :: i <= o < |t| && IsOpener(t, o) ==> SlotAfter(t[o]) != x
  }

  /** The incidence control passes to from byte j on: the first command tag at
      or after j, or 0 (halt) at the end of the text or at a `$` in fragment mode. */
  function NextTag(s: seq<Byte>, t: seq<int>, frag: bool, j: nat): (r: int)
    requires |s| == |t|
    ensures r == 0 || r > 2
    decreases |t| - j
  {
    if j >= |t| then 0
    else if frag && s[j] == Dollar then 0
    else if t[j] > 2 then t[j]
    else NextTag(s, t, frag, j + 1)
  }

  /** What the loop from byte i on achieves, f being the builder it leaves
      after the closing store: the pending slot receives the next incidence,
      every run from i on links its slot to the incidence after it, and no
      other slot changes. */
  ghost predicate LinksHold(s: seq<Byte>, t: seq<int>, frag: bool, i: nat, b: Builder, f: Builder)
    requires |s| == |t|
  {
    (b.store != Nowhere ==> Read(f.first, f.links, b.store) == NextTag(s, t, frag, i)) &&
    (forall o {:trigger IsOpener(t, o)} :: i <= o && IsOpener(t, o) ==>
       Read(f.first, f.links, SlotAfter(t[o])) == NextTag(s, t, frag, RunEnd(s, t, frag, Corrected, o) + 1)) &&
    (forall x {:trigger Fresh(t, i, x)} :: x != b.store && Fresh(t, i, x) ==>
       Read(f.first, f.links, x) == Read(b.first, b.links, x))
  }

  lemma LinksAtEnd(s: seq<Byte>, t: seq<int>, frag: bool, b: Builder)
    requires |s| == |t| && SlotInRange(b.store, |b.links|)
    ensures LinksHold(s, t, frag, |t|, b, Finish(b))
  {
    if b.store != Nowhere {
      StoreReads(b, 0);
    }
  }

  lemma LinksAtDollar(s: seq<Byte>, t: seq<int>, frag: bool, i: int, b: Builder, b': Builder, f: Builder)
    requires |s| == |t| && 0 <= i < |t| && SlotInRange(b.store, |b.links|)
    requires DollarFree(s, t, frag) && Fresh(t, i, b.store) && frag && s[i] == Dollar
    requires b' == Halt(b)
    requires LinksHold(s, t, frag, i + 1, b', f)
    ensures LinksHold(s, t, frag, i, b, f)
  {
    assert t[i] <= 2;
    if b.store != Nowhere {
      StoreReads(b, 0);
      assert Fresh(t, i + 1, b.store);
    }
    forall x {:trigger Fresh(t, i, x)} | x != b.store && Fresh(t, i, x)
      ensures Read(f.first, f.links, x) == Read(b.first, b.links, x)
    {
      if x != Nowhere {
        assert Fresh(t, i + 1, x);
      }
    }
  }

  lemma LinksAtNoise(s: seq<Byte>, t: seq<int>, frag: bool, i: int, b: Builder, f: Builder)
    requires |s| == |t| && 0 <= i < |t|
    requires !(frag && s[i] == Dollar) && t[i] <= 2
    requires LinksHold(s, t, frag, i + 1, b, f)
    ensures LinksHold(s, t, frag, i, b, f)
  {
    forall x {:trigger Fresh(t, i, x)} | x != b.store && Fresh(t, i, x)
      ensures Fresh(t, i + 1, x)
    {
    }
  }

  lemma CommandPending(s: seq<Byte>, t: seq<int>, frag: bool, i: int, b: Builder, b': Builder, f: Builder)
    requires |s| == |t| && 0 <= i < |t| && SlotInRange(b.store, |b.links|)
    requires Boundary(t, i) && Fresh(t, i, b.store)
    requires !(frag && s[i] == Dollar) && t[i] > 2
    requires b' == Advance(b, t[i])
    requires LinksHold(s, t, frag, RunEnd(s, t, frag, Corrected, i) + 1, b', f)
    ensures b.store != Nowhere ==> Read(f.first, f.links, b.store) == NextTag(s, t, frag, i)
  {
    assert IsOpener(t, i);
    if b.store != Nowhere {
      var r := RunEnd(s, t, frag, Corrected, i);
      StoreReads(b, t[i]);
      assert Fresh(t, r + 1, b.store);
      assert Read(f.first, f.links, b.store) == Read(b'.first, b'.links, b.store);
    }
  }

  lemma CommandOpeners(s: seq<Byte>, t: seq<int>, frag: bool, i: int, b': Builder, f: Builder)
    requires |s| == |t| && 0 <= i < |t| && t[i] > 2 && b'.store == SlotAfter(t[i])
    requires LinksHold(s, t, frag, RunEnd(s, t, frag, Corrected, i) + 1, b', f)
    ensures forall o {:trigger IsOpener(t, o)} :: i <= o && IsOpener(t, o) ==>
      Read(f.first, f.links, SlotAfter(t[o])) == NextTag(s, t, frag, RunEnd(s, t, frag, Corrected, o) + 1)
  {
    var r := RunEnd(s, t, frag, Corrected, i);
    InsideRun(s, t, frag, Corrected, i);
    forall o {:trigger IsOpener(t, o)} | i <= o && IsOpener(t, o)
      ensures Read(f.first, f.links, SlotAfter(t[o])) == NextTag(s, t, frag, RunEnd(s, t, frag, Corrected, o) + 1)
    {
      if o == i {
        assert SlotAfter(t[o]) == b'.store;
      } else {
        assert r + 1 <= o;
      }
    }
  }

  lemma CommandOthers(s: seq<Byte>, t: seq<int>, frag: bool, i: int, b: Builder, b': Builder, f: Builder)
    requires |s| == |t| && 0 <= i < |t| && SlotInRange(b.store, |b.links|)
    requires Boundary(t, i) && Fresh(t, i, b.store)
    requires !(frag && s[i] == Dollar) && t[i] > 2
    requires b' == Advance(b, t[i])
    requires LinksHold(s, t, frag, RunEnd(s, t, frag, Corrected, i) + 1, b', f)
    ensures forall x {:trigger Fresh(t, i, x)} :: x != b.store && Fresh(t, i, x) ==>
      Read(f.first, f.links, x) == Read(b.first, b.links, x)
  {
    var r := RunEnd(s, t, frag, Corrected, i);
    assert IsOpener(t, i);
    if b.store != Nowhere {
      StoreReads(b, t[i]);
    }
    forall x {:trigger Fresh(t, i, x)} | x != b.store && Fresh(t, i, x)
      ensures Read(f.first, f.links, x) == Read(b.first, b.links, x)
    {
      assert x != b'.store;
      assert Fresh(t, r + 1, x);
    }
  }

  lemma LinksAtCommand(s: seq<Byte>, t: seq<int>, frag: bool, i: int, b: Builder, b': Builder, f: Builder)
    requires |s| == |t| && 0 <= i < |t| && SlotInRange(b.store, |b.links|)
    requires Boundary(t, i) && Fresh(t, i, b.store)
    requires !(frag && s[i] == Dollar) && t[i] > 2
    requires b' == Advance(b, t[i])
    requires LinksHold(s, t, frag, RunEnd(s, t, frag, Corrected, i) + 1, b', f)
    ensures LinksHold(s, t, frag, i, b, f)
  {
    CommandPending(s, t, frag, i, b, b', f);
    CommandOpeners(s, t, frag, i, b', f);
    CommandOthers(s, t, frag, i, b, b', f);
  }

  /** The loop's next stop after a run is again a boundary, and the run's
      slot is designated by no later run. */
  lemma RunIsolated(s: seq<Byte>, t: seq<int>, frag: bool, i: int)
    requires |s| == |t| && 0 <= i < |t| && t[i] > 2
    requires Contiguous(t) && DollarFree(s, t, frag)
    ensures var r := RunEnd(s, t, frag, Corrected, i);
      Boundary(t, r + 1) && Fresh(t, r + 1, SlotAfter(t[i]))
  {
    var r := RunEnd(s, t, frag, Corrected, i);
    RunEndSame(s, t, frag, Corrected, i, r);
    forall o {:trigger IsOpener(t, o)} | r + 1 <= o && IsOpener(t, o)
      ensures SlotAfter(t[o]) != SlotAfter(t[i])
    {
      assert t[o] != t[i];
      SlotAfterInjective(t[o], t[i]);
    }
  }

  /** The `$` case of ThreadFromLinks: the loop moves on to byte j with
      builder b', and what it achieves from there it achieves from byte i. */
  lemma DollarStep(s: seq<Byte>, t: seq<int>, frag: bool, i: int, b: Builder) returns (j: int, b': Builder)
    requires |s| == |t| && 0 <= i < |t| && SlotInRange(b.store, |b.links|)
    requires DollarFree(s, t, frag) && Fresh(t, i, b.store) && frag && s[i] == Dollar
    ensures i < j <= |t| && |b'.links| == |b.links| && SlotInRange(b'.store, |b.links|)
    ensures Boundary(t, j) && Fresh(t, j, b'.store)
    ensures LinksHold(s, t, frag, j, b', Finish(ThreadFrom(s, t, frag, Corrected, j, b').value)) ==>
            LinksHold(s, t, frag, i, b, Finish(ThreadFrom(s, t, frag, Corrected, i, b).value))
  {
    j, b' := i + 1, Halt(b);
    UnfoldDollar(s, t, frag, Corrected, i, b);
    var f := Finish(ThreadFrom(s, t, frag, Corrected, j, b').value);
    if LinksHold(s, t, frag, j, b', f) {
      LinksAtDollar(s, t, frag, i, b, b', f);
    }
  }

  /** The command case of ThreadFromLinks. */
  lemma CommandStep(s: seq<Byte>, t: seq<int>, frag: bool, i: int, b: Builder) returns (j: int, b': Builder)
    requires |s| == |t| && 0 <= i < |t| && SlotInRange(b.store, |b.links|)
    requires Contiguous(t) && DollarFree(s, t, frag) && Boundary(t, i) && Fresh(t, i, b.store)
    requires !(frag && s[i] == Dollar) && t[i] > 2 && t[i] / 3 < |b.links|
    ensures i < j <= |t| && |b'.links| == |b.links| && SlotInRange(b'.store, |b.links|)
    ensures Boundary(t, j) && Fresh(t, j, b'.store)
    ensures LinksHold(s, t, frag, j, b', Finish(ThreadFrom(s, t, frag, Corrected, j, b').value)) ==>
            LinksHold(s, t, frag, i, b, Finish(ThreadFrom(s, t, frag, Corrected, i, b).value))
  {
    RunIsolated(s, t, frag, i);
    j, b' := RunEnd(s, t, frag, Corrected, i) + 1, Advance(b, t[i]);
    UnfoldCommand(s, t, frag, Corrected, i, b);
    var f := Finish(ThreadFrom(s, t, frag, Corrected, j, b').value);
    if LinksHold(s, t, frag, j, b', f) {
      LinksAtCommand(s, t, frag, i, b, b', f);
    }
  }

  /** The case of a byte outside every command run. */
  lemma NoiseStep(s: seq<Byte>, t: seq<int>, frag: bool, i: int, b: Builder) returns (j: int, b': Builder)
    requires |s| == |t| && 0 <= i < |t| && SlotInRange(b.store, |b.links|) && Fresh(t, i, b.store)
    requires !(frag && s[i] == Dollar) && t[i] <= 2
    ensures i < j <= |t| && |b'.links| == |b.links| && SlotInRange(b'.store, |b.links|)
    ensures Boundary(t, j) && Fresh(t, j, b'.store)
    ensures LinksHold(s, t, frag, j, b', Finish(ThreadFrom(s, t, frag, Corrected, j, b').value)) ==>
            LinksHold(s, t, frag, i, b, Finish(ThreadFrom(s, t, frag, Corrected, i, b).value))
  {
    j, b' := i + 1, b;
    UnfoldNoise(s, t, frag, Corrected, i, b);
    var f := Finish(ThreadFrom(s, t, frag, Corrected, j, b').value);
    if LinksHold(s, t, frag, j, b', f) {
      LinksAtNoise(s, t, frag, i, b, f);
    }
  }

  lemma {:induction false} ThreadFromLinks(s: seq<Byte>, t: seq<int>, frag: bool, i: int, b: Builder)
    requires |s| == |t| && 0 <= i <= |t| && TagsInRange(t, |b.links|) && SlotInRange(b.store, |b.links|)
    requires Contiguous(t) && DollarFree(s, t, frag) && Boundary(t, i) && Fresh(t, i, b.store)
    ensures LinksHold(s, t, frag, i, b, Finish(ThreadFrom(s, t, frag, Corrected, i, b).value))
    decreases |t| - i
  {
    if i == |t| {
      LinksAtEnd(s, t, frag, b);
    } else {
      var j, b';
      if frag && s[i] == Dollar {
        j, b' := DollarStep(s, t, frag, i, b);
      } else if t[i] > 2 {
        j, b' := CommandStep(s, t, frag, i, b);
      } else {
        j, b' := NoiseStep(s, t, frag, i, b);
      }
      ThreadFromLinks(s, t, frag, j, b');
    }
  }

  /** The builder the loop leaves, after the closing store. */
  ghost function Final(s: seq<Byte>, t: seq<int>, count: nat, frag: bool): (f: Builder)
    requires |s| == |t| && TagsInRange(t, count + 1)
    ensures |f.links| == count + 1
    ensures Threaded(s, t, count, frag, Corrected) == Some(Graph(f.first, f.links))
  {
    Finish(ThreadFrom(s, t, frag, Corrected, 0, Start(count)).value)
  }

  /** What the whole loop achieves, for a program whose commands are contiguous. */
  lemma FinalLinks(s: seq<Byte>, t: seq<int>, count: nat, frag: bool)
    requires |s| == |t| && TagsInRange(t, count + 1) && Contiguous(t) && DollarFree(s, t, frag)
    ensures LinksHold(s, t, frag, 0, Start(count), Final(s, t, count, frag))
  {
    ThreadFromLinks(s, t, frag, 0, Start(count));
  }

  /** For a program whose commands are contiguous and, in fragment mode, free
      of `$`: first_incidence is the first incidence of the text, or 0 when a
      `$` or the end comes first. */
  lemma ThreadedFirst(s: seq<Byte>, t: seq<int>, count: nat, frag: bool)
    requires |s| == |t| && TagsInRange(t, count + 1) && Contiguous(t) && DollarFree(s, t, frag)
    ensures Threaded(s, t, count, frag, Corrected).value.first == NextTag(s, t, frag, 0)
  {
    FinalLinks(s, t, count, frag);
  }

  /** The slot a run designates holds the incidence that follows the run in
      the text, or 0 when a `$` or the end follows. */
  lemma ThreadedRunLink(s: seq<Byte>, t: seq<int>, count: nat, frag: bool, o: int)
    requires |s| == |t| && TagsInRange(t, count + 1) && Contiguous(t) && DollarFree(s, t, frag)
    requires 0 <= o < |t| && IsOpener(t, o)
    ensures var g := Threaded(s, t, count, frag, Corrected).value;
      Read(g.first, g.links, SlotAfter(t[o])) == NextTag(s, t, frag, RunEnd(s, t, frag, Corrected, o) + 1)
  {
    FinalLinks(s, t, count, frag);
    RunLinkIn(s, t, frag, o, Start(count), Final(s, t, count, frag));
  }

  lemma RunLinkIn(s: seq<Byte>, t: seq<int>, frag: bool, o: int, b: Builder, f: Builder)
    requires |s| == |t| && LinksHold(s, t, frag, 0, b, f) && 0 <= o < |t| && IsOpener(t, o)
    ensures Read(f.first, f.links, SlotAfter(t[o])) == NextTag(s, t, frag, RunEnd(s, t, frag, Corrected, o) + 1)
  {
  }

  /** A slot no run designates keeps its initial 0 (halt). */
  lemma ThreadedUnused(s: seq<Byte>, t: seq<int>, count: nat, frag: bool, x: Slot)
    requires |s| == |t| && TagsInRange(t, count + 1) && Contiguous(t) && DollarFree(s, t, frag)
    requires SlotInRange(x, count + 1) && x != FirstSlot && Fresh(t, 0, x)
    ensures var g := Threaded(s, t, count, frag, Corrected).value;
      Read(g.first, g.links, x) == 0
  {
    FinalLinks(s, t, count, frag);
    UnusedIn(s, t, frag, x, Start(count), Final(s, t, count, frag));
  }

  lemma UnusedIn(s: seq<Byte>, t: seq<int>, frag: bool, x: Slot, b: Builder, f: Builder)
    requires |s| == |t| && LinksHold(s, t, frag, 0, b, f) && x != b.store && Fresh(t, 0, x)
    ensures Read(f.first, f.links, x) == Read(b.first, b.links, x)
  {
  }

  lemma {:induction false} RunEndAgree(s: seq<Byte>, t: seq<int>, i: int)
    requires |s| == |t| && 0 <= i < |t|
    ensures RunEnd(s, t, false, AsWritten, i) == RunEnd(s, t, false, Corrected, i)
    decreases |t| - i
  {
    if i + 1 < |t| && t[i + 1] == t[i] {
      RunEndAgree(s, t, i + 1);
    }
  }

  lemma {:induction false} ThreadFromAgree(s: seq<Byte>, t: seq<int>, i: int, b: Builder)
    requires |s| == |t| && 0 <= i <= |t|
    ensures ThreadFrom(s, t, false, AsWritten, i, b) == ThreadFrom(s, t, false, Corrected, i, b)
    decreases |t| - i
  {
    if i < |t| {
      if t[i] > 2 {
        RunEndAgree(s, t, i);
        UnfoldCommand(s, t, false, AsWritten, i, b);
        UnfoldCommand(s, t, false, Corrected, i, b);
        ThreadFromAgree(s, t, RunEnd(s, t, false, Corrected, i) + 1,
                        Advance(b, t[i]));
      } else {
        UnfoldNoise(s, t, false, AsWritten, i, b);
        UnfoldNoise(s, t, false, Corrected, i, b);
        ThreadFromAgree(s, t, i + 1, b);
      }
    }
  }

  /** Outside fragment mode the corrections change nothing. */
  lemma VariantsAgree(s: seq<Byte>, t: seq<int>, count: nat)
    requires |s| == |t| && TagsInRange(t, count + 1)
    ensures Threaded(s, t, count, false, AsWritten) == Threaded(s, t, count, false, Corrected)
  {
    ThreadFromAgree(s, t, 0, Start(count));
  }

  // ---------------------------------------------------------------------
  // Findings

  lemma {:induction false} CrashAfterDollar(s: seq<Byte>, t: seq<int>, i: int, b: Builder, q: int)
    requires |s| == |t| && 0 <= i <= q < |t| && TagsInRange(t, |b.links|) && SlotInRange(b.store, |b.links|)
    requires b.store == Nowhere && s[q] == Dollar
    requires forall k :: i <= k <= q ==> t[k] <= 2
    ensures ThreadFrom(s, t, true, AsWritten, i, b) == None
    decreases q - i
  {
    if s[i] != Dollar {
      CrashAfterDollar(s, t, i + 1, b, q);
    }
  }

  /** As written, two `$` in fragment mode with no command byte from the
      first to the second write through the NULL pointer. */
  lemma {:induction false} NullStoreCrash(s: seq<Byte>, t: seq<int>, i: int, b: Builder, p: int, q: int)
    requires |s| == |t| && 0 <= i <= p < q < |t| && TagsInRange(t, |b.links|) && SlotInRange(b.store, |b.links|)
    requires s[p] == Dollar && s[q] == Dollar
    requires forall k :: p <= k <= q ==> t[k] <= 2
    ensures ThreadFrom(s, t, true, AsWritten, i, b) == None
    decreases p - i
  {
    if i == p {
      UnfoldDollar(s, t, true, AsWritten, i, b);
      if b.store != Nowhere {
        CrashAfterDollar(s, t, i + 1, Halt(b), q);
      }
    } else if s[i] == Dollar {
      UnfoldDollar(s, t, true, AsWritten, i, b);
      if b.store != Nowhere {
        NullStoreCrash(s, t, i + 1, Halt(b), p, q);
      }
    } else if t[i] > 2 {
      UnfoldCommand(s, t, true, AsWritten, i, b);
      RunBefore(s, t, true, AsWritten, i, p);
      NullStoreCrash(s, t, RunEnd(s, t, true, AsWritten, i) + 1, Advance(b, t[i]), p, q);
    } else {
      UnfoldNoise(s, t, true, AsWritten, i, b);
      NullStoreCrash(s, t, i + 1, b, p, q);
    }
  }

  /** The program `$$` run in fragment mode. */
  lemma DoubleDollarProgram()
    ensures Threaded([Dollar, Dollar], [0, 0], 0, true, AsWritten) == None
    ensures Threaded([Dollar, Dollar], [0, 0], 0, true, Corrected) == Some(Graph(0, [Links(0, 0, 0)]))
  {
    var s: seq<Byte> := [Dollar, Dollar];
    NullStoreCrash(s, [0, 0], 0, Start(0), 0, 1);
    var b0 := Start(0);
    var b1 := Builder(0, [Links(0, 0, 0)], Nowhere);
    assert Halt(b0) == b1;
    assert ThreadFrom(s, [0, 0], true, Corrected, 2, b1) == Some(b1);
    assert ThreadFrom(s, [0, 0], true, Corrected, 1, b1) == Some(b1);
    assert ThreadFrom(s, [0, 0], true, Corrected, 0, b0) == Some(b1);
  }

  /** With the corrected test the skip over a command's bytes never passes a `$`. */
  lemma {:induction false} SkipStopsAtDollar(s: seq<Byte>, t: seq<int>, i: int)
    requires |s| == |t| && 0 <= i < |t|
    ensures forall k :: i < k <= RunEnd(s, t, true, Corrected, i) ==> s[k] != Dollar
    decreases |t| - i
  {
    if i + 1 < |t| && t[i + 1] == t[i] && s[i + 1] != Dollar {
      SkipStopsAtDollar(s, t, i + 1);
    }
  }

  /** The program `a$a$a$` run in fragment mode: its one command is `a$`, with
      incidences at 0, 2 and 4.  As written the skip tests the tag against `$`
      and passes over every `$`, so the chain runs 3 -> 4 -> 5.  With the
      corrected test each skip stops before its `$`, which closes the pending
      slot with 0; the next incidence then designates a fresh slot that its own
      `$` closes in turn. */
  lemma DollarInsideCommand()
    ensures RunEnd(ThreeDollars, ThreeDollarsTags, true, AsWritten, 0) == 1
    ensures RunEnd(ThreeDollars, ThreeDollarsTags, true, Corrected, 0) == 0
    ensures Threaded(ThreeDollars, ThreeDollarsTags, 1, true, AsWritten) ==
            Some(Graph(3, [Links(0, 0, 0), Links(4, 0, 5)]))
    ensures Threaded(ThreeDollars, ThreeDollarsTags, 1, true, Corrected) ==
            Some(Graph(3, [Links(0, 0, 0), Links(0, 0, 0)]))
  {
    var s := ThreeDollars;
    var t := ThreeDollarsTags;
    var zero := Links(0, 0, 0);
    var b0 := Start(1);
    assert b0.links == [zero, zero];
    // as written: every skip passes over the `$` behind it
    assert RunEnd(s, t, true, AsWritten, 1) == 1;
    assert RunEnd(s, t, true, AsWritten, 3) == 3;
    assert RunEnd(s, t, true, AsWritten, 5) == 5;
    var w1 := Builder(3, [zero, zero], Pop0Slot(1));
    var w2 := Builder(3, [zero, Links(4, 0, 0)], PushSlot(1));
    var w3 := Builder(3, [zero, Links(4, 0, 5)], Pop1Slot(1));
    assert Advance(b0, 3) == w1 && Advance(w1, 4) == w2 && Advance(w2, 5) == w3;
    assert ThreadFrom(s, t, true, AsWritten, 6, w3) == Some(w3);
    assert ThreadFrom(s, t, true, AsWritten, 4, w2) == Some(w3);
    assert ThreadFrom(s, t, true, AsWritten, 2, w1) == Some(w3);
    assert ThreadFrom(s, t, true, AsWritten, 0, b0) == Some(w3);
    assert Finish(w3) == w3;
    // corrected: each `$` closes the slot its incidence designated
    assert RunEnd(s, t, true, Corrected, 2) == 2;
    assert RunEnd(s, t, true, Corrected, 4) == 4;
    var c0 := Builder(3, [zero, zero], Nowhere);
    assert Advance(c0, 4) == Builder(3, [zero, zero], PushSlot(1));
    assert Halt(Builder(3, [zero, zero], PushSlot(1))) == c0;
    assert Advance(c0, 5) == Builder(3, [zero, zero], Pop1Slot(1));
    assert Halt(Builder(3, [zero, zero], Pop1Slot(1))) == c0;
    assert Halt(w1) == c0;
    assert ThreadFrom(s, t, true, Corrected, 6, c0) == Some(c0);
    assert ThreadFrom(s, t, true, Corrected, 4, c0) == Some(c0);
    assert ThreadFrom(s, t, true, Corrected, 2, c0) == Some(c0);
    assert ThreadFrom(s, t, true, Corrected, 0, b0) == Some(c0);
  }

  /** The bytes of `a$a$a$` and the tags the lexer gives them: one command,
      `a$`, found three times. */
  const ThreeDollars: seq<Byte> := [97, Dollar, 97, Dollar, 97, Dollar]
  const ThreeDollarsTags: seq<int> := [3, 3, 4, 4, 5, 5]
}
