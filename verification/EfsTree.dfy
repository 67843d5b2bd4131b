/**
 What the recursive listing of packages/diag-efs/src/diag_efs.c prints when the modem's directories form
 a tree within the tool's limits: every entry once, and no entry after something inside it.
 */
module EfsTree {
  import opened Words
  import opened EfsListing

  /** An entry of a directory and, if it is a directory itself, what is in it. */
  datatype Node = Node(entry: Entry, kids: seq<Node>)

  function EntriesOf(kids: seq<Node>): (es: seq<Entry>)
    ensures |es| == |kids| && forall i :: 0 <= i < |kids| ==> es[i] == kids[i].entry
  {
    if kids == [] then [] else EntriesOf(kids[..|kids| - 1]) + [kids[|kids| - 1].entry]
  }

  function PathOf(path: string, name: string): (r: string)
    requires path != []
    ensures r != []
  {
    if path[|path| - 1] == '/' then path + name else path + "/" + name
  }

  /** The type bits of a mode say directory. */
  predicate Directory(mode: u32) {
    0x4000 <= mode % 0x1_0000 < 0x5000
  }

  /** The line for an entry of a directory: its whole path, whether it is a directory, mode and size. */
  function TreeLine(path: string, e: Entry): Line
    requires path != []
  {
    Line(PathOf(path, e.name), Directory(e.mode), e.mode, e.size)
  }

  predicate NameFits(path: string, name: string)
    requires path != []
  {
    name != [] && '/' !in name && |name| <= 511 && |PathOf(path, name)| <= 1023
  }

  predicate Distinct(kids: seq<Node>) {
    forall i, j :: 0 <= i < j < |kids| ==> kids[i].entry.name != kids[j].entry.name
  }

  /**
   The modem answers for path with exactly the tree kids, which is at most that many levels high; a directory below the
   last level is empty.
   */
  ghost predicate Mirrors(graph: Graph, path: string, kids: seq<Node>, levels: nat)
    requires path != []
    decreases levels, 1
  {
    && graph(path) == Some(EntriesOf(kids)) && |kids| <= 2048
    && if levels == 0 then kids == [] else Fits(graph, path, kids, levels)
  }

  ghost predicate Fits(graph: Graph, path: string, kids: seq<Node>, levels: nat)
    requires path != []
    decreases levels, 0
  {
    && Distinct(kids)
    && forall i :: 0 <= i < |kids| ==>
      && NameFits(path, kids[i].entry.name)
      && if Directory(kids[i].entry.mode)
         then levels > 0 && Mirrors(graph, PathOf(path, kids[i].entry.name), kids[i].kids, levels - 1)
         else kids[i].kids == []
  }

  /** The entries of a tree in the order in which one would walk it, each directory before its contents. */
  function Preorder(path: string, kids: seq<Node>): seq<Line>
    requires path != []
    decreases kids
  {
    if kids == [] then [] else
      var last := kids[|kids| - 1];
      Preorder(path, kids[..|kids| - 1]) + [TreeLine(path, last.entry)] + Preorder(PathOf(path, last.entry.name), last.kids)
  }

  // ----- every entry once -----

  lemma JoinOfFitting(path: string, name: string)
    requires path != [] && NameFits(path, name)
    ensures Join(path, name) == PathOf(path, name)
  {
    assert Clip(name, NAME_ROOM) == name;
  }

  lemma AllVisible(path: string, kids: seq<Node>, k: nat)
    requires path != [] && k <= |kids| <= MAXENT && forall i :: 0 <= i < |kids| ==> NameFits(path, kids[i].entry.name)
    ensures Visible(EntriesOf(kids), k) == |kids|
    decreases |kids| - k
  {
    if k < |kids| {
      AllVisible(path, kids, k + 1);
    }
  }

  lemma ListingOfMirror(graph: Graph, path: string, kids: seq<Node>, depth: nat)
    requires path != [] && depth <= MAXDEPTH && Mirrors(graph, path, kids, MAXDEPTH + 1 - depth)
    ensures Listing(graph, path, depth)
            == Lines(path, EntriesOf(kids)) + if depth < MAXDEPTH then Below(graph, path, EntriesOf(kids), depth) else []
  {
    AllVisible(path, kids, 0);
    hide Mirrors, Visible;
    ListingOfSeen(graph, path, EntriesOf(kids), depth);
  }

  lemma ListingOfSeen(graph: Graph, path: string, es: seq<Entry>, depth: nat)
    requires path != [] && depth <= MAXDEPTH && graph(path) == Some(es) && Visible(es, 0) == |es|
    ensures Listing(graph, path, depth) == Lines(path, es) + if depth < MAXDEPTH then Below(graph, path, es, depth) else []
  {
    hide Lines, Below, Visible;
    assert es[..|es|] == es;
  }

  lemma EntriesOfPrefix(kids: seq<Node>)
    requires kids != []
    ensures EntriesOf(kids)[..|kids| - 1] == EntriesOf(kids[..|kids| - 1])
  {
  }

  lemma FitsPrefix(graph: Graph, path: string, kids: seq<Node>, levels: nat)
    requires path != [] && kids != [] && Fits(graph, path, kids, levels)
    ensures Fits(graph, path, kids[..|kids| - 1], levels)
  {
  }

  lemma {:induction false} ListsEachEntryOnce(graph: Graph, path: string, kids: seq<Node>, depth: nat)
    requires path != [] && depth <= MAXDEPTH && Mirrors(graph, path, kids, MAXDEPTH + 1 - depth)
    ensures multiset(Listing(graph, path, depth)) == multiset(Preorder(path, kids))
    decreases MAXDEPTH - depth, 2
  {
    ListingOfMirror(graph, path, kids, depth);
    if depth < MAXDEPTH {
      BelowEachOnce(graph, path, kids, depth);
    } else {
      FlatEachOnce(graph, path, kids);
    }
  }

  lemma {:induction false} FlatEachOnce(graph: Graph, path: string, kids: seq<Node>)
    requires path != [] && Fits(graph, path, kids, 1)
    ensures Lines(path, EntriesOf(kids)) == Preorder(path, kids)
  {
    if kids != [] {
      EntriesOfPrefix(kids);
      FitsPrefix(graph, path, kids, 1);
      LastKid(graph, path, kids, 1);
      PreorderOfPrefix(path, kids);
      FlatEachOnce(graph, path, kids[..|kids| - 1]);
      hide Preorder, EntriesOf, Fits, LineOf, PathOf, Join;
    }
  }

  lemma Rearranged(lines: seq<Line>, below: seq<Line>, l: Line, more: seq<Line>, p: seq<Line>, q: seq<Line>)
    requires multiset(lines + below) == multiset(p) && multiset(more) == multiset(q)
    ensures multiset((lines + [l]) + (below + more)) == multiset(p + [l] + q)
  {
  }

  /** The last of the kids, as the tool meets it. */
  lemma LastKid(graph: Graph, path: string, kids: seq<Node>, levels: nat)
    requires path != [] && kids != [] && Fits(graph, path, kids, levels)
    ensures var last := kids[|kids| - 1];
            && NameFits(path, last.entry.name)
            && Join(path, last.entry.name) == PathOf(path, last.entry.name)
            && LineOf(path, last.entry) == TreeLine(path, last.entry) && (IsDir(last.entry.mode) <==> Directory(last.entry.mode))
            && if IsDir(last.entry.mode)
               then levels > 0 && Mirrors(graph, PathOf(path, last.entry.name), last.kids, levels - 1)
               else last.kids == []
  {
    JoinOfFitting(path, kids[|kids| - 1].entry.name);
    DirectoryBits(kids[|kids| - 1].entry.mode);
  }

  lemma BelowOfPrefix(graph: Graph, path: string, kids: seq<Node>, depth: nat)
    requires path != [] && depth < MAXDEPTH && kids != []
    ensures var (init, last) := (kids[..|kids| - 1], kids[|kids| - 1].entry);
            && Lines(path, EntriesOf(kids)) == Lines(path, EntriesOf(init)) + [LineOf(path, last)]
            && Below(graph, path, EntriesOf(kids), depth)
               == Below(graph, path, EntriesOf(init), depth)
                  + if IsDir(last.mode) then Listing(graph, Join(path, last.name), depth + 1) else []
  {
    EntriesOfPrefix(kids);
  }

  lemma PreorderOfPrefix(path: string, kids: seq<Node>)
    requires path != [] && kids != []
    ensures var (init, last) := (kids[..|kids| - 1], kids[|kids| - 1]);
            && Preorder(path, kids)
               == Preorder(path, init) + [TreeLine(path, last.entry)] + Preorder(PathOf(path, last.entry.name), last.kids)
            && (last.kids == [] ==> Preorder(PathOf(path, last.entry.name), last.kids) == [])
  {
  }

  lemma {:induction false} BelowEachOnce(graph: Graph, path: string, kids: seq<Node>, depth: nat)
    requires path != [] && depth < MAXDEPTH && Fits(graph, path, kids, MAXDEPTH + 1 - depth)
    ensures multiset(Lines(path, EntriesOf(kids)) + Below(graph, path, EntriesOf(kids), depth)) == multiset(Preorder(path, kids))
    decreases MAXDEPTH - depth, 1, |kids|
  {
    if kids == [] {
      assert EntriesOf(kids) == [];
    } else {
      hide Below, Lines, Preorder, EntriesOf, Fits;
      FitsPrefix(graph, path, kids, MAXDEPTH + 1 - depth);
      BelowEachOnce(graph, path, kids[..|kids| - 1], depth);
      OneMoreEachOnce(graph, path, kids, depth);
    }
  }

  lemma OneMoreEachOnce(graph: Graph, path: string, kids: seq<Node>, depth: nat)
    requires path != [] && depth < MAXDEPTH && kids != [] && Fits(graph, path, kids, MAXDEPTH + 1 - depth)
    requires var init := kids[..|kids| - 1];
             multiset(Lines(path, EntriesOf(init)) + Below(graph, path, EntriesOf(init), depth)) == multiset(Preorder(path, init))
    ensures multiset(Lines(path, EntriesOf(kids)) + Below(graph, path, EntriesOf(kids), depth)) == multiset(Preorder(path, kids))
    decreases MAXDEPTH - depth, 0
  {
    hide Below, Lines, Preorder, EntriesOf, Fits, Mirrors, Listing, LineOf, TreeLine, PathOf, Join;
    var last, init := kids[|kids| - 1], kids[..|kids| - 1];
    LastKid(graph, path, kids, MAXDEPTH + 1 - depth);
    BelowOfPrefix(graph, path, kids, depth);
    PreorderOfPrefix(path, kids);
    var sub := PathOf(path, last.entry.name);
    var more := if IsDir(last.entry.mode) then Listing(graph, sub, depth + 1) else [];
    if IsDir(last.entry.mode) {
      ListsEachEntryOnce(graph, sub, last.kids, depth + 1);
    }
    Rearranged(Lines(path, EntriesOf(init)), Below(graph, path, EntriesOf(init), depth), LineOf(path, last.entry), more,
               Preorder(path, init), Preorder(sub, last.kids));
  }

  // ----- each directory before its contents -----

  predicate Inside(path: string, dir: string) {
    dir + "/" <= path
  }

  /** No line repeats an earlier one, and none comes after a line for something inside it. */
  predicate Orderly(lines: seq<Line>) {
    forall i, j :: 0 <= i < j < |lines| ==> Before(lines[i], lines[j])
  }

  predicate Before(a: Line, b: Line) {
    a.full != b.full && !Inside(a.full, b.full)
  }

  /** Every line lies in one of the kids. */
  ghost predicate UnderSome(lines: seq<Line>, path: string, kids: seq<Node>)
    requires path != []
  {
    forall l :: l in lines ==> exists i :: 0 <= i < |kids| && InKid(l.full, path, kids[i])
  }

  predicate InKid(full: string, path: string, kid: Node)
    requires path != []
  {
    Inside(full, PathOf(path, kid.entry.name))
  }

  function FirstSlash(x: string, at: nat): nat
    requires at <= |x|
    decreases |x| - at
  {
    if at < |x| && x[at] != '/' then FirstSlash(x, at + 1) else at
  }

  lemma {:induction false} SlashBehind(x: string, at: nat, n: string)
    requires at + |n| < |x| && x[at..at + |n|] == n && '/' !in n && x[at + |n|] == '/'
    ensures FirstSlash(x, at) == at + |n|
    decreases n
  {
    if n != [] {
      assert n[0] == x[at];
      assert x[at + 1..at + |n|] == n[1..];
      SlashBehind(x, at + 1, n[1..]);
    }
  }

  lemma {:induction false} NoSlash(x: string, at: nat)
    requires at <= |x| && '/' !in x[at..]
    ensures FirstSlash(x, at) == |x|
    decreases |x| - at
  {
    if at < |x| {
      assert x[at..][0] == x[at];
      assert x[at + 1..] == x[at..][1..];
      NoSlash(x, at + 1);
    }
  }

  lemma SlashAfter(p: string, x: string)
    requires Inside(x, p)
    ensures |p| < |x| && x[..|p|] == p && x[|p|] == '/'
  {
    assert (p + "/")[|p|] == '/';
  }

  lemma Middle(x: string, base: string, n: string)
    requires |base + n| <= |x| && x[..|base + n|] == base + n
    ensures x[|base|..|base| + |n|] == n
  {
    forall i | 0 <= i < |n| ensures x[|base| + i] == n[i] {
      assert x[..|base + n|][|base| + i] == (base + n)[|base| + i];
    }
  }

  /** The name behind base is what comes before the next slash. */
  lemma NameBehind(base: string, n: string, x: string)
    requires '/' !in n && Inside(x, base + n)
    ensures |base| <= FirstSlash(x, |base|) < |x| && n == x[|base|..FirstSlash(x, |base|)]
  {
    hide FirstSlash, Inside;
    SlashAfter(base + n, x);
    Middle(x, base, n);
    SlashBehind(x, |base|, n);
  }

  lemma NoNameBehind(base: string, n: string)
    requires '/' !in n
    ensures FirstSlash(base + n, |base|) == |base + n|
  {
    assert (base + n)[|base|..] == n;
    NoSlash(base + n, |base|);
  }

  lemma InsideChain(x: string, y: string, dir: string)
    requires Inside(x, y) && Inside(y, dir)
    ensures Inside(x, dir)
  {
    assert x[..|y|] == y;
  }

  lemma InsideBase(x: string, path: string, name: string)
    requires path != [] && Inside(x, PathOf(path, name))
    ensures Base(path) <= x
  {
    assert x[..|Base(path)|] == Base(path);
  }

  lemma SubBase(path: string, name: string)
    requires path != [] && NameFits(path, name)
    ensures Base(PathOf(path, name)) == PathOf(path, name) + "/"
  {
    assert PathOf(path, name)[|PathOf(path, name)| - 1] == name[|name| - 1];
  }

  /** Two entries of one directory. */
  lemma EntryBeforeEntry(path: string, a: Line, b: Line, n: string, m: string)
    requires path != [] && '/' !in n && '/' !in m && n != m && a.full == PathOf(path, n) && b.full == PathOf(path, m)
    ensures Before(a, b)
  {
    assert a.full[|Base(path)|..] == n && b.full[|Base(path)|..] == m;
    NoNameBehind(Base(path), n);
    if Inside(a.full, b.full) {
      NameBehind(Base(path), m, a.full);
    }
  }

  /** An entry of a directory and something in a sub-directory, be it the entry's own. */
  lemma EntryBeforeInside(path: string, a: Line, b: Line, n: string, m: string)
    requires path != [] && '/' !in n && '/' !in m && a.full == PathOf(path, n) && Inside(b.full, PathOf(path, m))
    ensures Before(a, b)
  {
    NoNameBehind(Base(path), n);
    NameBehind(Base(path), m, b.full);
    if Inside(a.full, b.full) {
      InsideChain(a.full, b.full, PathOf(path, m));
      NameBehind(Base(path), m, a.full);
    }
  }

  /** Things in two different sub-directories. */
  lemma InsideBeforeInside(path: string, a: Line, b: Line, n: string, m: string)
    requires path != [] && '/' !in n && '/' !in m && n != m
    requires Inside(a.full, PathOf(path, n)) && Inside(b.full, PathOf(path, m))
    ensures Before(a, b)
  {
    NameBehind(Base(path), n, a.full);
    NameBehind(Base(path), m, b.full);
    if Inside(a.full, b.full) {
      InsideChain(a.full, b.full, PathOf(path, m));
      NameBehind(Base(path), m, a.full);
    }
  }

  lemma OrderlyConcat(a: seq<Line>, b: seq<Line>)
    requires Orderly(a) && Orderly(b) && forall x, y :: x in a && y in b ==> Before(x, y)
    ensures Orderly(a + b)
  {
  }

  lemma {:induction false} LineAt(path: string, es: seq<Entry>, i: nat)
    requires path != [] && i < |es|
    ensures Lines(path, es)[i] == LineOf(path, es[i])
    decreases |es|
  {
    if i < |es| - 1 {
      LineAt(path, es[..|es| - 1], i);
    }
  }

  lemma EntryLine(path: string, kids: seq<Node>, i: nat)
    requires path != [] && i < |kids| && NameFits(path, kids[i].entry.name)
    ensures Lines(path, EntriesOf(kids))[i].full == PathOf(path, kids[i].entry.name)
  {
    LineAt(path, EntriesOf(kids), i);
    JoinOfFitting(path, kids[i].entry.name);
  }

  lemma EntriesAreOrderly(graph: Graph, path: string, kids: seq<Node>, levels: nat)
    requires path != [] && Fits(graph, path, kids, levels)
    ensures Orderly(Lines(path, EntriesOf(kids)))
  {
    var lines := Lines(path, EntriesOf(kids));
    forall i, j | 0 <= i < j < |lines| ensures Before(lines[i], lines[j]) {
      EntryLine(path, kids, i);
      EntryLine(path, kids, j);
      EntryBeforeEntry(path, lines[i], lines[j], kids[i].entry.name, kids[j].entry.name);
    }
  }

  lemma {:induction false} ListingIsOrderly(graph: Graph, path: string, kids: seq<Node>, depth: nat)
    requires path != [] && depth <= MAXDEPTH && Mirrors(graph, path, kids, MAXDEPTH + 1 - depth)
    ensures Orderly(Listing(graph, path, depth))
    ensures forall l :: l in Listing(graph, path, depth) ==> Base(path) <= l.full
    decreases MAXDEPTH - depth, 2
  {
    ListingOfMirror(graph, path, kids, depth);
    EntriesAreOrderly(graph, path, kids, MAXDEPTH + 1 - depth);
    var lines := Lines(path, EntriesOf(kids));
    var below := if depth < MAXDEPTH then Below(graph, path, EntriesOf(kids), depth) else [];
    if depth < MAXDEPTH {
      BelowIsOrderly(graph, path, kids, depth);
    }
    JoinEntriesAndBelow(graph, path, kids, MAXDEPTH + 1 - depth, below);
  }

  /** The entries of a directory go in front of everything that is inside one of them. */
  lemma JoinEntriesAndBelow(graph: Graph, path: string, kids: seq<Node>, levels: nat, below: seq<Line>)
    requires path != [] && Fits(graph, path, kids, levels) && UnderSome(below, path, kids) && Orderly(below)
    requires Orderly(Lines(path, EntriesOf(kids)))
    ensures Orderly(Lines(path, EntriesOf(kids)) + below)
    ensures forall l :: l in Lines(path, EntriesOf(kids)) + below ==> Base(path) <= l.full
  {
    var lines := Lines(path, EntriesOf(kids));
    forall y | y in below ensures Base(path) <= y.full {
      var j :| 0 <= j < |kids| && InKid(y.full, path, kids[j]);
      InsideBase(y.full, path, kids[j].entry.name);
    }
    forall x | x in lines ensures Base(path) <= x.full && forall y :: y in below ==> Before(x, y) {
      var i :| 0 <= i < |lines| && lines[i] == x;
      EntryLine(path, kids, i);
      forall y | y in below ensures Before(x, y) {
        var j :| 0 <= j < |kids| && InKid(y.full, path, kids[j]);
        EntryBeforeInside(path, x, y, kids[i].entry.name, kids[j].entry.name);
      }
    }
    OrderlyConcat(lines, below);
  }

  lemma {:induction false} BelowIsOrderly(graph: Graph, path: string, kids: seq<Node>, depth: nat)
    requires path != [] && depth < MAXDEPTH && Fits(graph, path, kids, MAXDEPTH + 1 - depth)
    ensures Orderly(Below(graph, path, EntriesOf(kids), depth))
    ensures UnderSome(Below(graph, path, EntriesOf(kids), depth), path, kids)
    decreases MAXDEPTH - depth, 1, |kids|
  {
    if kids == [] {
      assert EntriesOf(kids) == [];
    } else {
      hide Below, EntriesOf, Fits, Orderly, UnderSome;
      FitsPrefix(graph, path, kids, MAXDEPTH + 1 - depth);
      BelowIsOrderly(graph, path, kids[..|kids| - 1], depth);
      OneMoreOrderly(graph, path, kids, depth);
    }
  }

  lemma OneMoreOrderly(graph: Graph, path: string, kids: seq<Node>, depth: nat)
    requires path != [] && depth < MAXDEPTH && kids != [] && Fits(graph, path, kids, MAXDEPTH + 1 - depth)
    requires Orderly(Below(graph, path, EntriesOf(kids[..|kids| - 1]), depth))
    requires UnderSome(Below(graph, path, EntriesOf(kids[..|kids| - 1]), depth), path, kids[..|kids| - 1])
    ensures Orderly(Below(graph, path, EntriesOf(kids), depth))
    ensures UnderSome(Below(graph, path, EntriesOf(kids), depth), path, kids)
    decreases MAXDEPTH - depth, 0
  {
    hide Below, Lines, EntriesOf, Fits, Mirrors, Listing, PathOf, Join, UnderSome, Orderly;
    var last := kids[|kids| - 1];
    LastKid(graph, path, kids, MAXDEPTH + 1 - depth);
    BelowOfPrefix(graph, path, kids, depth);
    var more := if IsDir(last.entry.mode) then Listing(graph, PathOf(path, last.entry.name), depth + 1) else [];
    if IsDir(last.entry.mode) {
      ListingIsOrderly(graph, PathOf(path, last.entry.name), last.kids, depth + 1);
      SubBase(path, last.entry.name);
    } else {
      NothingIsOrderly();
    }
    JoinBelow(graph, path, kids, MAXDEPTH + 1 - depth, Below(graph, path, EntriesOf(kids[..|kids| - 1]), depth), more);
  }

  lemma NothingIsOrderly()
    ensures Orderly([])
  {
  }

  lemma JoinBelow(graph: Graph, path: string, kids: seq<Node>, levels: nat, below: seq<Line>, more: seq<Line>)
    requires path != [] && kids != [] && Fits(graph, path, kids, levels)
    requires Orderly(below) && UnderSome(below, path, kids[..|kids| - 1])
    requires Orderly(more) && forall l :: l in more ==> InKid(l.full, path, kids[|kids| - 1])
    ensures Orderly(below + more) && UnderSome(below + more, path, kids)
  {
    var last := kids[|kids| - 1];
    forall x | x in below ensures (exists i :: 0 <= i < |kids| && InKid(x.full, path, kids[i]))
                                  && forall y :: y in more ==> Before(x, y) {
      var i :| 0 <= i < |kids| - 1 && InKid(x.full, path, kids[..|kids| - 1][i]);
      assert InKid(x.full, path, kids[i]);
      forall y | y in more ensures Before(x, y) {
        assert InKid(y.full, path, last);
        InsideBeforeInside(path, x, y, kids[i].entry.name, last.entry.name);
      }
    }
    OrderlyConcat(below, more);
  }

  /** The whole claim for a tree within the limits. */
  lemma TreeIsListed(graph: Graph, path: string, kids: seq<Node>)
    requires path != [] && Mirrors(graph, path, kids, 13)
    ensures multiset(Listing(graph, path, 0)) == multiset(Preorder(path, kids))
    ensures Orderly(Listing(graph, path, 0))
  {
    hide Mirrors, Listing, Preorder, Orderly;
    ListsEachEntryOnce(graph, path, kids, 0);
    ListingIsOrderly(graph, path, kids, 0);
  }
}
