/** The sweep of `src/runtime/fullcgc.c`: a walk over a range of words that holds
    objects back to back, overwriting the unmarked ones in place. */
module Sweep {
  datatype Tag = FillerTag | CodeTag | OtherTag

  /** A heap word: an object header with the object's size, or any other word. */
  datatype Word = Header(tag: Tag, nwords: nat) | Plain(value: int)

  /** Where the range lies; a page of code wants fillers, text space keeps a list of freed blobs
      at or above the start of the managed pool. */
  datatype Space = Dynamic | CodePage | Text(poolStart: nat)

  function Size(w: Word): nat {
    if w.Header? then w.nwords else 2
  }

  /** The words from `i` on are a sequence of whole objects of even size. */
  predicate Walkable(mem: seq<Word>, i: nat)
    decreases |mem| - i
  {
    || i == |mem|
    || (i < |mem| && Size(mem[i]) >= 2 && Size(mem[i]) % 2 == 0 && i + Size(mem[i]) <= |mem| &&
        Walkable(mem, i + Size(mem[i])))
  }

  /** The addresses at which objects start. */
  ghost function Starts(mem: seq<Word>, i: nat): set<nat>
    requires Walkable(mem, i)
    decreases |mem| - i
  {
    if i == |mem| then {} else {i} + Starts(mem, i + Size(mem[i]))
  }

  /** Should the object at `a` be overwritten? */
  predicate Doomed(mem: seq<Word>, a: nat, marks: set<nat>, space: Space)
    requires a < |mem|
  {
    && a !in marks
    && (mem[a].Header? ==> mem[a].tag != FillerTag && (space.Text? ==> mem[a].tag == CodeTag))
  }

  /** The words of the object at `a` after it was overwritten. */
  ghost predicate Clobbered(was: seq<Word>, now: seq<Word>, a: nat, space: Space, next: int)
    requires |was| == |now| && a < |was| && 2 <= Size(was[a]) && a + Size(was[a]) <= |was|
  {
    if !was[a].Header? then
      now[a] == Plain(-1) && now[a + 1] == Plain(-1)
    else match space
      case Dynamic => forall k :: a <= k < a + was[a].nwords ==> now[k] == Plain(0)
      case CodePage =>
        && now[a] == Header(FillerTag, was[a].nwords) && now[a + 1] == Plain(0)
        && forall k :: a + 2 <= k < a + was[a].nwords ==> now[k] == was[k]
      case Text(poolStart) =>
        && now[a] == Header(FillerTag, was[a].nwords)
        && now[a + 1] == (if a >= poolStart then Plain(next) else was[a + 1])
        && forall k :: a + 2 <= k < a + was[a].nwords ==> now[k] == was[k]
  }

  ghost predicate Same(was: seq<Word>, now: seq<Word>, from: nat, to: nat)
    requires |was| == |now|
  {
    forall k :: from <= k < to && k < |was| ==> now[k] == was[k]
  }

  lemma {:induction false} StartsBounds(mem: seq<Word>, i: nat, a: nat)
    requires Walkable(mem, i) && a in Starts(mem, i)
    ensures i <= a < |mem| && 2 <= Size(mem[a]) && a + Size(mem[a]) <= |mem|
    decreases |mem| - i
  {
    if i < |mem| && a != i { StartsBounds(mem, i + Size(mem[i]), a); }
  }

  /** Objects do not overlap. */
  lemma {:induction false} StartsDisjoint(mem: seq<Word>, i: nat, a: nat, b: nat)
    requires Walkable(mem, i) && a in Starts(mem, i) && b in Starts(mem, i) && a < b
    ensures a < |mem| && a + Size(mem[a]) <= b
    decreases |mem| - i
  {
    if a == i {
      StartsBounds(mem, i + Size(mem[i]), b);
    } else {
      StartsBounds(mem, i + Size(mem[i]), a);
      StartsDisjoint(mem, i + Size(mem[i]), a, b);
    }
  }

  /** A run of plain words of even length parses as conses. */
  lemma {:induction false} PlainRunWalks(mem: seq<Word>, i: nat, j: nat)
    requires i <= j <= |mem| && (j - i) % 2 == 0 && Walkable(mem, j)
    requires forall k :: i <= k < j ==> mem[k].Plain?
    ensures Walkable(mem, i) && Starts(mem, j) <= Starts(mem, i)
    decreases j - i
  {
    if i < j { PlainRunWalks(mem, i + 2, j); }
  }

  /** What the sweep does to the object at `a`. */
  ghost predicate Swept(was: seq<Word>, now: seq<Word>, a: nat, marks: set<nat>, space: Space)
    requires |was| == |now| && a < |was| && 2 <= Size(was[a]) && a + Size(was[a]) <= |was|
  {
    if a !in marks && (was[a].Header? ==> was[a].tag != FillerTag && (space.Text? ==> was[a].tag == CodeTag)) then
      exists next :: Clobbered(was, now, a, space, next)
    else
      Same(was, now, a, a + Size(was[a]))
  }

  /** Every object that starts in `from..to` has been swept. */
  ghost predicate SweptBetween(was: seq<Word>, now: seq<Word>, from: nat, to: nat, marks: set<nat>, space: Space)
    requires |was| == |now| && Walkable(was, 0)
  {
    forall a :: a in Starts(was, 0) && from <= a < to ==>
      a < |was| && 2 <= Size(was[a]) && a + Size(was[a]) <= |was| && Swept(was, now, a, marks, space)
  }

  /** A swept object keeps its size or is zeroed. */
  lemma SweptForm(was: seq<Word>, now: seq<Word>, i: nat, marks: set<nat>, space: Space)
    requires |was| == |now| && i < |was| && 2 <= Size(was[i]) && i + Size(was[i]) <= |was|
    requires Swept(was, now, i, marks, space)
    ensures Size(now[i]) == Size(was[i]) || forall k :: i <= k < i + Size(was[i]) ==> now[k] == Plain(0)
  {
  }

  /** The walk goes on behind a swept object. */
  lemma WalksOn(was: seq<Word>, now: seq<Word>, i: nat, marks: set<nat>, space: Space)
    requires |was| == |now| && i < |was| && 2 <= Size(was[i]) && Size(was[i]) % 2 == 0 && i + Size(was[i]) <= |was|
    requires Swept(was, now, i, marks, space) && Walkable(now, i + Size(was[i]))
    ensures Walkable(now, i) && Starts(now, i + Size(was[i])) <= Starts(now, i) && i in Starts(now, i)
  {
    hide Swept;
    SweptForm(was, now, i, marks, space);
    if Size(now[i]) != Size(was[i]) { PlainRunWalks(now, i, i + Size(was[i])); }
  }

  /** A swept range is still a sequence of whole objects, and every object that was not
      overwritten, or became a filler, still starts where it did. */
  lemma {:induction false} SweptWalks(was: seq<Word>, now: seq<Word>, i: nat, marks: set<nat>, space: Space)
    requires |was| == |now| && Walkable(was, 0) && Walkable(was, i) && Starts(was, i) <= Starts(was, 0)
    requires SweptBetween(was, now, i, |was|, marks, space)
    ensures Walkable(now, i)
    ensures forall a :: a in Starts(was, i) ==> a in Starts(now, i)
    decreases |was| - i
  {
    if i < |was| {
      var j := i + Size(was[i]);
      assert i in Starts(was, i);
      assert Starts(was, j) <= Starts(was, i);
      hide Swept;
      SweptWalks(was, now, j, marks, space);
      WalksOn(was, now, i, marks, space);
    }
  }

  lemma {:induction false} SuffixStarts(mem: seq<Word>, i: nat, a: nat)
    requires Walkable(mem, i) && a in Starts(mem, i)
    ensures Walkable(mem, a) && Starts(mem, a) <= Starts(mem, i)
    decreases |mem| - i
  {
    if i < |mem| && a != i { SuffixStarts(mem, i + Size(mem[i]), a); }
  }

  /** Between one object and the next there is no third. */
  lemma NextStart(mem: seq<Word>, i: nat, a: nat)
    requires Walkable(mem, 0) && Walkable(mem, i) && i < |mem| && i in Starts(mem, 0) && a in Starts(mem, 0)
    ensures a < i + Size(mem[i]) ==> a <= i
  {
    if i < a { StartsDisjoint(mem, 0, i, a); }
  }

  /** The freed blobs are chained through the word after their header. */
  ghost predicate Chained(mem: seq<Word>, freelist: seq<nat>) {
    forall i :: 0 <= i < |freelist| ==>
      && freelist[i] + 1 < |mem| && mem[freelist[i]].Header? && mem[freelist[i]].tag == FillerTag
      && mem[freelist[i] + 1] == Plain(if i + 1 < |freelist| then freelist[i + 1] else 0)
  }

  /** `freelist` is `before` plus the blobs of the pool freed below `upto`. */
  ghost predicate Freed(was: seq<Word>, freelist: seq<nat>, before: seq<nat>, upto: nat, marks: set<nat>, space: Space)
    requires Walkable(was, 0) && upto <= |was|
  {
    forall a :: a in freelist <==> a in before || FreedBlob(was, a, upto, marks, space)
  }

  ghost predicate FreedBlob(was: seq<Word>, a: nat, upto: nat, marks: set<nat>, space: Space)
    requires Walkable(was, 0) && upto <= |was|
  {
    space.Text? && space.poolStart <= a < upto && a in Starts(was, 0) && was[a].Header? && Doomed(was, a, marks, space)
  }

  /** Overwriting the object at `i` leaves the swept objects before it as they are. */
  lemma ClobberKeepsSwept(was: seq<Word>, mid: seq<Word>, now: seq<Word>, i: nat, marks: set<nat>, space: Space)
    requires |was| == |mid| == |now| && Walkable(was, 0) && i in Starts(was, 0) && i < |was|
    requires SweptBetween(was, mid, 0, i, marks, space) && Same(mid, now, 0, i)
    ensures SweptBetween(was, now, 0, i, marks, space)
  {
    forall a | a in Starts(was, 0) && a < i
      ensures 2 <= Size(was[a]) && a + Size(was[a]) <= |was| && Swept(was, now, a, marks, space)
    {
      StartsDisjoint(was, 0, a, i);
      assert Swept(was, mid, a, marks, space);
      if Doomed(was, a, marks, space) {
        var next :| Clobbered(was, mid, a, space, next);
        assert Clobbered(was, now, a, space, next);
      }
    }
  }

  lemma ClobberKeepsChain(was: seq<Word>, mid: seq<Word>, now: seq<Word>, i: nat, freelist: seq<nat>)
    requires |was| == |mid| == |now| && Walkable(was, 0) && i in Starts(was, 0) && i < |was|
    requires Chained(mid, freelist) && forall a :: a in freelist ==> a in Starts(was, 0) && a != i
    requires Same(mid, now, 0, i) && Same(mid, now, i + Size(was[i]), |was|)
    ensures Chained(now, freelist)
  {
    forall k | 0 <= k < |freelist|
      ensures now[freelist[k]] == mid[freelist[k]] && now[freelist[k] + 1] == mid[freelist[k] + 1]
    {
      var a := freelist[k];
      assert a in freelist;
      if a < i {
        StartsDisjoint(was, 0, a, i);
        StartsBounds(was, 0, a);
      } else {
        StartsDisjoint(was, 0, i, a);
      }
    }
  }

  lemma PushKeepsChain(mem: seq<Word>, freelist: seq<nat>, i: nat)
    requires Chained(mem, freelist) && i + 1 < |mem| && mem[i].Header? && mem[i].tag == FillerTag
    requires mem[i + 1] == Plain(if freelist == [] then 0 else freelist[0])
    ensures Chained(mem, [i] + freelist)
  {
  }

  /** The object at `i` joins the freed blobs exactly if it is a doomed blob of the pool. */
  lemma FreedStep(was: seq<Word>, freelist: seq<nat>, before: seq<nat>, i: nat, marks: set<nat>, space: Space)
    requires Walkable(was, 0) && i in Starts(was, 0) && i < |was| && Freed(was, freelist, before, i, marks, space)
    ensures Doomed(was, i, marks, space) && was[i].Header? && space.Text? && i >= space.poolStart ==>
              Freed(was, [i] + freelist, before, i + 1, marks, space)
    ensures !(Doomed(was, i, marks, space) && was[i].Header? && space.Text? && i >= space.poolStart) ==>
              Freed(was, freelist, before, i + 1, marks, space)
    ensures space.Text? && Chained(was, before) && Doomed(was, i, marks, space) && was[i].Header? ==> i !in freelist
  {
    hide Walkable, Starts;
  }

  lemma ClobberOf(was: seq<Word>, mid: seq<Word>, now: seq<Word>, i: nat, space: Space, next: int)
    requires |was| == |mid| == |now| && i < |was| && Same(was, mid, i, |was|)
    requires 2 <= Size(was[i]) && i + Size(was[i]) <= |was| && Clobbered(mid, now, i, space, next)
    ensures Clobbered(was, now, i, space, next)
    ensures space.Text? && was[i].Header? ==> now[i] == Header(FillerTag, was[i].nwords)
    ensures space.Text? && was[i].Header? && i >= space.poolStart ==> now[i + 1] == Plain(next)
  {
  }

  /** After the object at `i` was overwritten, everything up to it is swept. */
  lemma ClobberSweeps(was: seq<Word>, mid: seq<Word>, now: seq<Word>, i: nat, marks: set<nat>, space: Space, next: int)
    requires |was| == |mid| == |now| && Walkable(was, 0) && i in Starts(was, 0) && i < |was|
    requires 2 <= Size(was[i]) && i + Size(was[i]) <= |was| && Doomed(was, i, marks, space)
    requires SweptBetween(was, mid, 0, i, marks, space) && Same(was, mid, i, |was|) && Same(mid, now, 0, i)
    requires Clobbered(mid, now, i, space, next)
    ensures SweptBetween(was, now, 0, i + 1, marks, space)
  {
    hide Walkable, Starts, Clobbered;
    ClobberKeepsSwept(was, mid, now, i, marks, space);
    ClobberOf(was, mid, now, i, space, next);
    assert Swept(was, now, i, marks, space);
    hide Swept;
  }

  /** So it is if the object stays. */
  lemma KeepSweeps(was: seq<Word>, now: seq<Word>, i: nat, marks: set<nat>, space: Space)
    requires |was| == |now| && Walkable(was, 0) && i in Starts(was, 0) && i < |was|
    requires 2 <= Size(was[i]) && i + Size(was[i]) <= |was| && !Doomed(was, i, marks, space)
    requires SweptBetween(was, now, 0, i, marks, space) && Same(was, now, i, |was|)
    ensures SweptBetween(was, now, 0, i + 1, marks, space)
  {
    hide Walkable, Starts, Clobbered;
    assert Swept(was, now, i, marks, space);
    hide Swept;
  }

  /** The chain of freed blobs goes on through the overwritten object, if that is one of the pool. */
  lemma ClobberChains(was: seq<Word>, mid: seq<Word>, now: seq<Word>, i: nat, chain: seq<nat>, freelist: seq<nat>,
                      space: Space, next: int)
    requires |was| == |mid| == |now| && Walkable(was, 0) && i in Starts(was, 0) && i < |was| && space.Text?
    requires 2 <= Size(was[i]) && i + Size(was[i]) <= |was| && Same(was, mid, i, |was|)
    requires Same(mid, now, 0, i) && Same(mid, now, i + Size(was[i]), |was|) && Clobbered(mid, now, i, space, next)
    requires Chained(mid, chain) && forall a :: a in chain ==> a in Starts(was, 0) && a != i
    requires next == if chain == [] then 0 else chain[0]
    requires freelist == if was[i].Header? && i >= space.poolStart then [i] + chain else chain
    ensures Chained(now, freelist) && forall a :: a in freelist ==> a in Starts(was, 0)
  {
    hide Walkable, Starts, Chained;
    ClobberKeepsChain(was, mid, now, i, chain);
    ClobberOf(was, mid, now, i, space, next);
    if was[i].Header? && i >= space.poolStart {
      PushKeepsChain(now, chain, i);
    }
  }

  lemma WalkStart(mem: seq<Word>, i: nat)
    requires Walkable(mem, i) && i < |mem|
    ensures i in Starts(mem, i)
  {
  }

  lemma NothingFreed(was: seq<Word>, before: seq<nat>, marks: set<nat>, space: Space)
    requires Walkable(was, 0)
    ensures Freed(was, before, before, 0, marks, space)
  {
  }

  /** No object starts strictly inside the object at `i`, so the walk may jump to its end. */
  lemma NoStartWithin(was: seq<Word>, now: seq<Word>, i: nat, marks: set<nat>, space: Space, freelist: seq<nat>,
                      before: seq<nat>)
    requires |was| == |now| && Walkable(was, 0) && Walkable(was, i) && i < |was| && i in Starts(was, 0)
    requires i + Size(was[i]) <= |was|
    requires SweptBetween(was, now, 0, i + 1, marks, space) && Freed(was, freelist, before, i + 1, marks, space)
    ensures SweptBetween(was, now, 0, i + Size(was[i]), marks, space)
    ensures Freed(was, freelist, before, i + Size(was[i]), marks, space)
    ensures Size(was[i]) >= 2 && Walkable(was, i + Size(was[i]))
    ensures i + Size(was[i]) < |was| ==> i + Size(was[i]) in Starts(was, 0)
  {
    hide Swept, Doomed;
    forall a | a in Starts(was, 0) ensures a < i + Size(was[i]) ==> a <= i {
      NextStart(was, i, a);
    }
    SuffixStarts(was, 0, i);
  }

  class Sweeper {
    var mem: array<Word>
    var freelist: seq<nat>     // codeblob_freelist, newest first

    constructor (mem: array<Word>, freelist: seq<nat>)
      ensures this.mem == mem && this.freelist == freelist
    {
      this.mem, this.freelist := mem, freelist;
    }

    /** clobber_headered_object, and the two words of a dead cons. */
    method Clobber(a: nat, space: Space, ghost was: seq<Word>)
      requires was == mem[..] && a < |was| && 2 <= Size(was[a]) && a + Size(was[a]) <= |was|
      requires Doomed(was, a, {}, space)
      modifies this`freelist, mem
      ensures Same(was, mem[..], 0, a) && Same(was, mem[..], a + Size(was[a]), |was|)
      ensures Clobbered(was, mem[..], a, space, if old(freelist) == [] then 0 else old(freelist)[0])
      ensures freelist ==
                if was[a].Header? && space.Text? && a >= space.poolStart then [a] + old(freelist) else old(freelist)
    {
      if mem[a].Plain? {
        mem[a], mem[a + 1] := Plain(-1), Plain(-1);
      } else {
        var n := mem[a].nwords;
        match space
        case Dynamic =>
          forall k | a <= k < a + n { mem[k] := Plain(0); }
        case CodePage =>
          mem[a], mem[a + 1] := Header(FillerTag, n), Plain(0);
        case Text(poolStart) =>
          mem[a] := Header(FillerTag, n);
          if a >= poolStart {
            mem[a + 1] := Plain(if freelist == [] then 0 else freelist[0]);
            freelist := [a] + freelist;
          }
      }
    }

    /** One step of the walk. */
    method SweepOne(i: nat, marks: set<nat>, space: Space, ghost was: seq<Word>, ghost before: seq<nat>)
      requires |was| == mem.Length && Walkable(was, 0) && i in Starts(was, 0) && i < |was|
      requires Same(was, mem[..], i, |was|) && SweptBetween(was, mem[..], 0, i, marks, space)
      requires Freed(was, freelist, before, i, marks, space)
      requires space.Text? ==> Chained(was, before) && Chained(mem[..], freelist) && forall a :: a in freelist ==>
                 a in Starts(was, 0)
      modifies this`freelist, mem
      ensures i + Size(was[i]) <= |was| && Same(was, mem[..], i + Size(was[i]), |was|)
      ensures SweptBetween(was, mem[..], 0, i + 1, marks, space)
      ensures Freed(was, freelist, before, i + 1, marks, space)
      ensures space.Text? ==> Chained(mem[..], freelist) && forall a :: a in freelist ==> a in Starts(was, 0)
    {
      ghost var mid := mem[..];
      ghost var next := if freelist == [] then 0 else freelist[0];
      StartsBounds(was, 0, i);
      FreedStep(was, freelist, before, i, marks, space);
      hide Clobbered, Walkable, Starts, Freed, Chained, Swept;
      if Doomed(mem[..], i, marks, space) {
        Clobber(i, space, mid);
        ClobberSweeps(was, mid, mem[..], i, marks, space, next);
        if space.Text? {
          ClobberChains(was, mid, mem[..], i, old(freelist), freelist, space, next);
        }
      } else {
        KeepSweeps(was, mid, i, marks, space);
      }
    }

    /** sweep: marked objects and fillers keep every word, all others are overwritten, the range
        stays walkable, and the freed code blobs are chained onto the free list. */
    method SweepRange(marks: set<nat>, space: Space)
      requires Walkable(mem[..], 0)
      requires space.Text? ==> Chained(mem[..], freelist) && forall a :: a in freelist ==> a in Starts(mem[..], 0)
      modifies this`freelist, mem
      ensures SweptBetween(old(mem[..]), mem[..], 0, mem.Length, marks, space)
      ensures Walkable(mem[..], 0) && Starts(old(mem[..]), 0) <= Starts(mem[..], 0)
      ensures Freed(old(mem[..]), freelist, old(freelist), mem.Length, marks, space)
      ensures space.Text? ==> Chained(mem[..], freelist)
    {
      hide Clobbered, Swept, Walkable, Starts, Chained, Freed;
      ghost var was, before := mem[..], freelist;
      var where := 0;
      if 0 < |was| { WalkStart(was, 0); }
      NothingFreed(was, before, marks, space);
      while where < mem.Length
        invariant where <= mem.Length && Walkable(was, where)
        invariant where < mem.Length ==> where in Starts(was, 0)
        invariant Same(was, mem[..], where, |was|)
        invariant SweptBetween(was, mem[..], 0, where, marks, space)
        invariant Freed(was, freelist, before, where, marks, space)
        invariant space.Text? ==> Chained(mem[..], freelist) && forall a :: a in freelist ==> a in Starts(was, 0)
        decreases mem.Length - where
      {
        var n := Size(mem[where]);
        SweepOne(where, marks, space, was, before);
        NoStartWithin(was, mem[..], where, marks, space, freelist, before);
        where := where + n;
      }
      SweptWalks(was, mem[..], 0, marks, space);
    }
  }
}
