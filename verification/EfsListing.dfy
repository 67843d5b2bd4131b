/**
 The recursive directory listing of packages/diag-efs/src/diag_efs.c.

 The modem is any function from paths to directories, so it may describe a tree, a graph with cycles or
 nothing sensible at all; requests and replies may be lost.  The modem allows very few open directories:
 here it allows one, and that limit is the precondition of every request.
 */
module EfsListing {
  import opened Words

  const MAXENT := 2048
  const MAXSEQ := 1000000
  const MAXDEPTH := 12
  const NAME_ROOM := 511
  const PATH_ROOM := 1023

  datatype Entry = Entry(name: string, mode: u32, size: u32)

  datatype Line = Line(full: string, dir: bool, mode: u32, size: u32)

  type Graph = string -> Option<seq<Entry>>

  datatype Reply = Failed | End | Got(entry: Entry)

  datatype Held = Held(handle: u32, path: string)

  predicate IsDir(mode: u32) {
    (mode / 0x1000) % 16 == 4
  }

  /** The file type in bits 12 to 15 of the mode is that of a directory, 0x4000. */
  lemma DirectoryBits(mode: u32)
    ensures IsDir(mode) <==> 0x4000 <= mode % 0x1_0000 < 0x5000
  {
    var high, low := mode / 0x1_0000, mode % 0x1_0000;
    assert mode / 0x1000 == 16 * high + low / 0x1000;
  }

  /** What snprintf leaves of s in a buffer with room for n characters. */
  function Clip(s: string, n: nat): (r: string)
    ensures r <= s && |r| == Min(|s|, n)
  {
    s[..Min(|s|, n)]
  }

  function Base(path: string): string
    requires path != []
  {
    if path[|path| - 1] == '/' then path else path + "/"
  }

  function Join(path: string, name: string): (r: string)
    requires path != []
    ensures r != []
  {
    Clip(Base(path) + Clip(name, NAME_ROOM), PATH_ROOM)
  }

  function LineOf(path: string, e: Entry): Line
    requires path != []
  {
    Line(Join(path, e.name), IsDir(e.mode), e.mode, e.size)
  }

  /** The number of entries read from index k on: up to a nameless one or to the limit. */
  function Visible(es: seq<Entry>, k: nat): (n: nat)
    requires k <= Min(|es|, MAXENT)
    ensures k <= n <= Min(|es|, MAXENT)
    ensures forall i :: k <= i < n ==> es[i].name != []
    ensures n < Min(|es|, MAXENT) ==> es[n].name == []
    decreases |es| - k
  {
    if k < |es| && k < MAXENT && es[k].name != [] then Visible(es, k + 1) else k
  }

  function Lines(path: string, es: seq<Entry>): (r: seq<Line>)
    requires path != []
    ensures |r| == |es|
  {
    if es == [] then [] else Lines(path, es[..|es| - 1]) + [LineOf(path, es[|es| - 1])]
  }

  /** An entry as it stands in the tool's buffer after a reply. */
  function Received(e: Entry): (r: Entry)
    ensures r.mode == e.mode && r.name <= e.name && |r.name| <= NAME_ROOM
  {
    e.(name := Clip(e.name, NAME_ROOM))
  }

  /** Cutting the name in the reply buffer changes nothing: it is cut again when the path is put together. */
  lemma ReceivedJoins(path: string, e: Entry)
    requires path != []
    ensures Join(path, Received(e).name) == Join(path, e.name) && LineOf(path, Received(e)) == LineOf(path, e)
  {
    assert Clip(Clip(e.name, NAME_ROOM), NAME_ROOM) == Clip(e.name, NAME_ROOM);
  }

  lemma OneMoreLine(path: string, es: seq<Entry>, n: nat)
    requires path != [] && n < |es|
    ensures Lines(path, es[..n + 1]) == Lines(path, es[..n]) + [LineOf(path, Received(es[n]))]
  {
    assert es[..n + 1][..n] == es[..n];
    ReceivedJoins(path, es[n]);
  }

  lemma OneMoreVisible(es: seq<Entry>, n: nat)
    requires n < |es| && n < MAXENT && es[n].name != [] && Visible(es, 0) == Visible(es, n)
    ensures Visible(es, 0) == Visible(es, n + 1)
  {
  }

  /** What an undisturbed listing prints: the entries of the directory, then its sub-directories in turn. */
  function Listing(graph: Graph, path: string, depth: nat): seq<Line>
    requires path != [] && depth <= MAXDEPTH
    decreases MAXDEPTH - depth, 1, 0
  {
    match graph(path)
    case None => []
    case Some(es) =>
      var seen := es[..Visible(es, 0)];
      Lines(path, seen) + if depth < MAXDEPTH then Below(graph, path, seen, depth) else []
  }

  function Below(graph: Graph, path: string, es: seq<Entry>, depth: nat): seq<Line>
    requires path != [] && depth < MAXDEPTH
    decreases MAXDEPTH - depth, 0, |es|
  {
    if es == [] then [] else
      var last := es[|es| - 1];
      Below(graph, path, es[..|es| - 1], depth)
      + if IsDir(last.mode) then Listing(graph, Join(path, last.name), depth + 1) else []
  }

  /** a can be had from b by leaving lines out. */
  ghost predicate Among(a: seq<Line>, b: seq<Line>) {
    a == [] || (b != [] && ((a[|a| - 1] == b[|b| - 1] && Among(a[..|a| - 1], b[..|b| - 1])) || Among(a, b[..|b| - 1])))
  }

  lemma {:induction false} AmongItself(a: seq<Line>)
    ensures Among(a, a)
  {
    if a != [] {
      AmongItself(a[..|a| - 1]);
    }
  }

  lemma {:induction false} AmongConcat(a: seq<Line>, b: seq<Line>, c: seq<Line>, d: seq<Line>)
    requires Among(a, b) && Among(c, d)
    ensures Among(a + c, b + d)
    decreases |b| + |d|
  {
    if d == [] {
      assert a + c == a && b + d == b;
    } else {
      var d' := d[..|d| - 1];
      assert (b + d)[..|b + d| - 1] == b + d';
      if c == [] {
        AmongConcat(a, b, c, d');
      } else if Among(c, d') {
        AmongConcat(a, b, c, d');
      } else {
        AmongConcat(a, b, c[..|c| - 1], d');
        assert (a + c)[..|a + c| - 1] == a + c[..|c| - 1];
      }
    }
  }

  /** A listing cut short after k entries of a directory has lines of the whole listing only. */
  lemma {:induction false} AmongCut(path: string, es: seq<Entry>, k: nat)
    requires path != [] && k <= |es|
    ensures Among(Lines(path, es[..k]), Lines(path, es))
    decreases |es| - k
  {
    if k == |es| {
      assert es[..k] == es;
      AmongItself(Lines(path, es));
    } else {
      assert es[..|es| - 1][..k] == es[..k];
      AmongCut(path, es[..|es| - 1], k);
    }
  }

  lemma {:induction false} AmongBelow(graph: Graph, path: string, es: seq<Entry>, depth: nat, k: nat, a: seq<Line>)
    requires path != [] && k <= |es| && depth < MAXDEPTH && Among(a, Below(graph, path, es[..k], depth))
    ensures Among(a, Below(graph, path, es, depth))
    decreases |es| - k
  {
    if k == |es| {
      assert es[..k] == es;
    } else {
      assert es[..|es| - 1][..k] == es[..k];
      AmongBelow(graph, path, es[..|es| - 1], depth, k, a);
      var last := es[|es| - 1];
      var more := if IsDir(last.mode) then Listing(graph, Join(path, last.name), depth + 1) else [];
      AmongConcat(a, Below(graph, path, es[..|es| - 1], depth), [], more);
      assert a + [] == a;
    }
  }

  lemma AmongNothing(graph: Graph, path: string, depth: nat)
    requires path != [] && depth <= MAXDEPTH
    ensures Among([], Listing(graph, path, depth)) && (graph(path).None? ==> Listing(graph, path, depth) == [])
  {
  }

  lemma BelowNothing(graph: Graph, path: string, es: seq<Entry>, depth: nat)
    requires path != [] && depth < MAXDEPTH
    ensures Below(graph, path, es[..0], depth) == [] && Among([], Below(graph, path, es[..0], depth))
  {
  }

  /** The listing of one more sub-directory, or of nothing if the next entry is none, behind those printed. */
  lemma BelowOneMore(graph: Graph, path: string, es: seq<Entry>, depth: nat, i: nat, below: seq<Line>, part: seq<Line>)
    requires path != [] && depth < MAXDEPTH && i < |es| && Among(below, Below(graph, path, es[..i], depth))
    requires if IsDir(es[i].mode) then Among(part, Listing(graph, Join(path, Received(es[i]).name), depth + 1))
             else part == []
    ensures Among(below + part, Below(graph, path, es[..i + 1], depth))
    ensures below == Below(graph, path, es[..i], depth)
            && (IsDir(es[i].mode) ==> part == Listing(graph, Join(path, Received(es[i]).name), depth + 1))
            ==> below + part == Below(graph, path, es[..i + 1], depth)
  {
    assert es[..i + 1][..i] == es[..i];
    ReceivedJoins(path, es[i]);
    var more := if IsDir(es[i].mode) then Listing(graph, Join(path, es[i].name), depth + 1) else [];
    assert Below(graph, path, es[..i + 1], depth) == Below(graph, path, es[..i], depth) + more;
    AmongConcat(below, Below(graph, path, es[..i], depth), part, more);
  }

  /** The entries that were read and what was printed below them, against the undisturbed listing. */
  lemma PartOfListing(graph: Graph, path: string, depth: nat, nent: nat, below: seq<Line>)
    requires path != [] && depth <= MAXDEPTH && graph(path).Some? && nent <= Visible(graph(path).value, 0)
    requires if depth < MAXDEPTH then Among(below, Below(graph, path, graph(path).value[..nent], depth)) else below == []
    ensures var es := graph(path).value;
            && Among(Lines(path, es[..nent]) + below, Listing(graph, path, depth))
            && (nent == Visible(es, 0)
                && (depth < MAXDEPTH ==> below == Below(graph, path, es[..nent], depth))
                ==> Lines(path, es[..nent]) + below == Listing(graph, path, depth))
  {
    var es := graph(path).value;
    var seen := es[..Visible(es, 0)];
    assert seen[..nent] == es[..nent];
    AmongCut(path, seen, nent);
    assert Lines(path, seen) + [] == Lines(path, seen);
    if depth < MAXDEPTH {
      AmongBelow(graph, path, seen, depth, nent, below);
      AmongConcat(Lines(path, es[..nent]), Lines(path, seen), below, Below(graph, path, seen, depth));
    } else {
      AmongConcat(Lines(path, es[..nent]), Lines(path, seen), [], []);
    }
  }

  class Session {
    const graph: Graph
    var printed: seq<Line>
    var held: Option<Held>          // the directory handle the tool has been given and not yet passed to closedir
    ghost var faulty: bool          // some request failed that the modem's directories alone would not make fail

    constructor (graph: Graph)
      ensures this.graph == graph && printed == [] && held.None? && !faulty
    {
      this.graph, printed, held, faulty := graph, [], None, false;
    }

    /** efs_opendir */
    method OpenDir(path: string) returns (h: Option<u32>)
      requires held.None?
      modifies this`held, this`faulty
      ensures h.Some? ==> graph(path).Some? && held == Some(Held(h.value, path)) && faulty == old(faulty)
      ensures h.None? ==> held.None? && (old(faulty) ==> faulty) && (!faulty ==> graph(path).None?)
    {
      var answered: bool := *;
      if answered && graph(path).Some? {
        var k: u32 := *;
        h, held := Some(k), Some(Held(k, path));
      } else {
        h, faulty := None, faulty || graph(path).Some?;
      }
    }

    /** efs_readdir: past the last entry, and for a nameless one, the directory ends. */
    method ReadDir(h: u32, number: nat) returns (r: Reply)
      requires held.Some? && held.value.handle == h && graph(held.value.path).Some? && number > 0
      modifies this`faulty
      ensures r.Failed? ==> faulty
      ensures !r.Failed? ==> faulty == old(faulty)
      ensures var es := graph(held.value.path).value;
              && (r.End? ==> number > |es| || es[number - 1].name == [])
              && (r.Got? ==> number <= |es| && es[number - 1].name != []
                             && r.entry == Received(es[number - 1]))
    {
      var answered: bool := *;
      if !answered {
        faulty := true;
        return Failed;
      }
      var es := graph(held.value.path).value;
      if number > |es| || es[number - 1].name == [] {
        return End;
      }
      return Got(Received(es[number - 1]));
    }

    /** efs_closedir, whose result nobody looks at */
    method CloseDir(h: u32)
      requires held.Some? && held.value.handle == h
      modifies this`held
      ensures held.None?
    {
      held := None;
    }

    /** The first half of `list_rec`: print the entries and remember them until the directory is closed. */
    method ReadEntries(h: u32, path: string, names: array<string>, isdirs: array<bool>) returns (nent: nat)
      requires path != [] && held == Some(Held(h, path)) && graph(path).Some?
      requires names.Length == isdirs.Length == MAXENT
      modifies this`printed, this`faulty, names, isdirs
      ensures old(faulty) ==> faulty
      ensures var es := graph(path).value;
              && nent <= Visible(es, 0) && (!faulty ==> nent == Visible(es, 0))
              && printed == old(printed) + Lines(path, es[..nent])
              && forall i :: 0 <= i < nent ==> names[i] == Received(es[i]).name && isdirs[i] == IsDir(es[i].mode)
    {
      hide Visible, Lines, LineOf, Received, IsDir;
      ghost var es := graph(path).value;
      nent := 0;
      var number := 1;
      while number < MAXSEQ && nent < MAXENT
        invariant number == nent + 1 && nent <= Min(|es|, MAXENT) && (old(faulty) ==> faulty)
        invariant Visible(es, 0) == Visible(es, nent)
        invariant printed == old(printed) + Lines(path, es[..nent])
        invariant forall i :: 0 <= i < nent ==> names[i] == Received(es[i]).name && isdirs[i] == IsDir(es[i].mode)
      {
        var r := ReadDir(h, number);
        if !r.Got? {
          break;
        }
        OneMoreLine(path, es, nent);
        OneMoreVisible(es, nent);
        printed := printed + [LineOf(path, r.entry)];
        names[nent], isdirs[nent] := r.entry.name, IsDir(r.entry.mode);
        nent, number := nent + 1, number + 1;
      }
    }

    /**
     `list_rec`.  Whatever the directories are and whichever requests fail, it ends, it holds one directory
     at a time and none afterwards, and it prints lines of the undisturbed listing in that listing's order;
     if nothing fails it prints all of them.
     */
    method ListRec(path: string, depth: nat) returns (rc: int, ghost lines: seq<Line>)
      requires path != [] && depth <= MAXDEPTH && held.None?
      modifies this
      ensures held.None? && (old(faulty) ==> faulty)
      ensures printed == old(printed) + lines && Among(lines, Listing(graph, path, depth))
      ensures !faulty ==> lines == Listing(graph, path, depth) && (rc == 0 <==> graph(path).Some?)
      decreases MAXDEPTH - depth, 1
    {
      hide Listing, Below, Lines, Among, Visible, Join, Received;
      lines := [];
      AmongNothing(graph, path, depth);
      var h := OpenDir(path);
      if h.None? {
        return 1, lines;
      }
      var enoughMemory: bool := *;
      if !enoughMemory {
        CloseDir(h.value);
        faulty := true;
        return 1, lines;
      }
      var names, isdirs := new string[MAXENT], new bool[MAXENT];
      var nent := ReadEntries(h.value, path, names, isdirs);
      CloseDir(h.value);
      ghost var es := graph(path).value;
      ghost var below := [];
      lines := Lines(path, es[..nent]);
      if depth < MAXDEPTH {
        below := Descend(path, depth, names, isdirs, nent, es);
      }
      PartOfListing(graph, path, depth, nent, below);
      return 0, lines + below;
    }

    /** The second half of `list_rec`, with the directory closed: the sub-directories in turn. */
    method Descend(path: string, depth: nat, names: array<string>, isdirs: array<bool>, nent: nat, ghost es: seq<Entry>)
      returns (ghost below: seq<Line>)
      requires path != [] && depth < MAXDEPTH && held.None?
      requires nent <= |es| && names.Length == isdirs.Length == MAXENT && nent <= MAXENT
      requires forall i :: 0 <= i < nent ==> names[i] == Received(es[i]).name && isdirs[i] == IsDir(es[i].mode)
      modifies this
      ensures held.None? && (old(faulty) ==> faulty)
      ensures printed == old(printed) + below && Among(below, Below(graph, path, es[..nent], depth))
      ensures !faulty ==> below == Below(graph, path, es[..nent], depth)
      decreases MAXDEPTH - depth, 0
    {
      hide Listing, Below, Among, Join, Received, IsDir;
      below := [];
      BelowNothing(graph, path, es, depth);
      for i := 0 to nent
        invariant held.None? && (old(faulty) ==> faulty)
        invariant printed == old(printed) + below && Among(below, Below(graph, path, es[..i], depth))
        invariant !faulty ==> below == Below(graph, path, es[..i], depth)
        modifies this
      {
        ghost var part := [];
        if isdirs[i] {
          var sub := Join(path, names[i]);
          var ignored;
          ignored, part := ListRec(sub, depth + 1);
        }
        BelowOneMore(graph, path, es, depth, i, below, part);
        below := below + part;
      }
    }
  }
}
