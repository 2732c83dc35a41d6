/** Paths: splitting at slashes, and walking a directory tree given by any listing function. */
module Paths {
  import opened Bits
  import opened Bytes
  import opened Structures
  import opened Inodes

  const SLASH: byte := 47

  type Path = seq<byte>

  // ---------- Splitting ----------

  function Slashes(n: nat): (s: Path)
    ensures |s| == n
  {
    seq(n, _ => SLASH)
  }

  /** The length of the longest slash-free prefix. */
  function SegmentLength(p: Path): (n: nat)
    ensures n <= |p| && SLASH !in p[..n]
    ensures n < |p| ==> p[n] == SLASH
  {
    if p == [] || p[0] == SLASH then 0
    else
      var n := SegmentLength(p[1..]);
      assert p[..n + 1] == [p[0]] + p[1..][..n];
      n + 1
  }

  /** The non-empty stretches between slashes. */
  function Components(p: Path): seq<Path>
    decreases |p|
  {
    if p == [] then []
    else
      var n := SegmentLength(p);
      var rest := if n < |p| then p[n + 1..] else [];
      (if n > 0 then [p[..n]] else []) + Components(rest)
  }

  predicate IsName(c: Path)
  {
    c != [] && SLASH !in c
  }

  predicate AreNames(cs: seq<Path>)
  {
    forall i | 0 <= i < |cs| :: IsName(cs[i])
  }

  /** Components with runs of slashes: gaps[0] slashes in front, gaps[i] slashes behind component i - 1. */
  function Render(cs: seq<Path>, gaps: seq<nat>): Path
    requires |gaps| == |cs| + 1
  {
    Slashes(gaps[0]) + (if cs == [] then [] else cs[0] + Render(cs[1..], gaps[1..]))
  }

  /** Neighbouring components are separated by at least one slash. */
  predicate Separated(gaps: seq<nat>)
  {
    forall i | 0 < i < |gaps| - 1 :: gaps[i] > 0
  }

  lemma {:induction false} SegmentIs(c: Path, rest: Path)
    requires SLASH !in c && (rest == [] || rest[0] == SLASH)
    ensures SegmentLength(c + rest) == |c|
  {
    if c == [] {
      assert c + rest == rest;
    } else {
      assert (c + rest)[1..] == c[1..] + rest;
      SegmentIs(c[1..], rest);
    }
  }

  lemma LeadingSlash(p: Path)
    ensures Components([SLASH] + p) == Components(p)
  {
    var q := [SLASH] + p;
    assert q[1..] == p;
  }

  lemma {:induction false} LeadingSlashes(n: nat, p: Path)
    ensures Components(Slashes(n) + p) == Components(p)
  {
    if n == 0 {
      assert Slashes(0) + p == p;
    } else {
      assert Slashes(n) + p == [SLASH] + (Slashes(n - 1) + p);
      LeadingSlash(Slashes(n - 1) + p);
      LeadingSlashes(n - 1, p);
    }
  }

  lemma LeadingName(c: Path, rest: Path)
    requires IsName(c) && (rest == [] || rest[0] == SLASH)
    ensures Components(c + rest) == [c] + Components(rest)
  {
    SegmentIs(c, rest);
    var p := c + rest;
    assert p[..|c|] == c;
    if rest == [] {
      assert Components(p) == [c] + Components([]);
    } else {
      assert p[|c| + 1..] == rest[1..];
      assert rest == [SLASH] + rest[1..];
      LeadingSlash(rest[1..]);
    }
  }

  lemma SlashesThenName(n: nat, c: Path, rest: Path)
    requires IsName(c) && (rest == [] || rest[0] == SLASH)
    ensures Components(Slashes(n) + (c + rest)) == [c] + Components(rest)
  {
    LeadingSlashes(n, c + rest);
    LeadingName(c, rest);
  }

  lemma RenderTail(cs: seq<Path>, gaps: seq<nat>)
    requires |gaps| == |cs| + 1 && Separated(gaps) && cs != []
    ensures Separated(gaps[1..])
    ensures var rest := Render(cs[1..], gaps[1..]); rest == [] || rest[0] == SLASH
  {
    assert forall i | 0 < i < |gaps[1..]| - 1 :: gaps[1..][i] == gaps[i + 1];
    assert cs[1..] != [] ==> gaps[1] > 0;
  }

  /** Joining names with any positive numbers of slashes, and any number in front and behind, and splitting
      gives the names back. */
  lemma {:induction false} SplitOfRender(cs: seq<Path>, gaps: seq<nat>)
    requires AreNames(cs) && |gaps| == |cs| + 1 && Separated(gaps)
    ensures Components(Render(cs, gaps)) == cs
    decreases cs
  {
    if cs == [] {
      LeadingSlashes(gaps[0], []);
    } else {
      var rest := Render(cs[1..], gaps[1..]);
      RenderTail(cs, gaps);
      SplitOfRender(cs[1..], gaps[1..]);
      SlashesThenName(gaps[0], cs[0], rest);
      assert cs == [cs[0]] + cs[1..];
    }
  }

  /** Every path is such a join of its components. */
  lemma {:induction false} RenderOfSplit(p: Path) returns (gaps: seq<nat>)
    ensures AreNames(Components(p))
    ensures |gaps| == |Components(p)| + 1 && Separated(gaps)
    ensures Render(Components(p), gaps) == p
    decreases |p|
  {
    if p == [] {
      gaps := [0];
    } else if p[0] == SLASH {
      LeadingSlash(p[1..]);
      assert p == [SLASH] + p[1..];
      var inner := RenderOfSplit(p[1..]);
      gaps := [inner[0] + 1] + inner[1..];
      OneMoreSlash(Components(p), inner, gaps);
    } else {
      var n := SegmentLength(p);
      var c, rest := p[..n], p[n..];
      assert p == c + rest;
      LeadingName(c, rest);
      var inner := RenderOfSplit(rest);
      gaps := [0] + inner;
      OneMoreName(c, Components(rest), inner);
    }
  }

  lemma OneMoreSlash(cs: seq<Path>, inner: seq<nat>, gaps: seq<nat>)
    requires |inner| == |cs| + 1 && Separated(inner) && gaps == [inner[0] + 1] + inner[1..]
    ensures Separated(gaps) && Render(cs, gaps) == [SLASH] + Render(cs, inner)
  {
    assert gaps[1..] == inner[1..];
    assert forall i | 0 < i < |gaps| - 1 :: gaps[i] == inner[i];
    SlashOut(inner[0], if cs == [] then [] else cs[0] + Render(cs[1..], inner[1..]));
  }

  lemma SlashOut(n: nat, rest: Path)
    ensures Slashes(n + 1) + rest == [SLASH] + (Slashes(n) + rest)
  {
  }

  /** What stands behind a name starts with a slash unless nothing more follows. */
  lemma OneMoreName(c: Path, cs: seq<Path>, inner: seq<nat>)
    requires AreNames(cs) && |inner| == |cs| + 1 && Separated(inner)
    requires Render(cs, inner) == [] || Render(cs, inner)[0] == SLASH
    ensures Separated([0] + inner) && Render([c] + cs, [0] + inner) == c + Render(cs, inner)
  {
    var gaps := [0] + inner;
    assert gaps[1..] == inner && ([c] + cs)[1..] == cs;
    assert cs != [] ==> Render(cs, inner)[inner[0]] == cs[0][0] != SLASH;
    assert forall i | 1 < i < |gaps| - 1 :: gaps[i] == inner[i - 1];
  }

  lemma Prepended(cs: seq<Path>, ds: seq<Path>)
    requires cs != []
    ensures [cs[0]] + (cs[1..] + ds) == cs + ds
  {
  }

  lemma Reassociated(a: Path, b: Path, c: Path, d: Path, e: Path)
    ensures a + (b + c) + d + e == a + (b + (c + d + e))
    ensures a + [] + d + e == a + (d + e)
  {
  }

  lemma {:induction false} JoinedRender(cs: seq<Path>, gaps: seq<nat>, q: Path)
    requires AreNames(cs) && |gaps| == |cs| + 1 && Separated(gaps)
    ensures Components(Render(cs, gaps) + [SLASH] + q) == cs + Components(q)
    decreases cs
  {
    if cs == [] {
      Reassociated(Slashes(gaps[0]), [], [], [SLASH], q);
      LeadingSlashes(gaps[0], [SLASH] + q);
      LeadingSlash(q);
    } else {
      var rest := Render(cs[1..], gaps[1..]);
      var tail := rest + [SLASH] + q;
      RenderTail(cs, gaps);
      JoinedRender(cs[1..], gaps[1..], q);
      Reassociated(Slashes(gaps[0]), cs[0], rest, [SLASH], q);
      SlashesThenName(gaps[0], cs[0], tail);
      Prepended(cs, Components(q));
    }
  }

  /** The components of two paths joined by a slash. */
  lemma JoinedPath(p: Path, q: Path)
    ensures Components(p + [SLASH] + q) == Components(p) + Components(q)
  {
    var gaps := RenderOfSplit(p);
    JoinedRender(Components(p), gaps, q);
  }

  /** Where splitting continues behind the segment p[at..end]. */
  function Behind(p: Path, end: nat): (n: nat)
    requires end <= |p|
    ensures n <= |p|
  {
    if end < |p| then end + 1 else end
  }

  lemma SplitSegment(p: Path, at: nat, end: nat)
    requires at <= end <= |p| && at < |p| && SLASH !in p[at..end] && (end < |p| ==> p[end] == SLASH)
    ensures Components(p[at..]) == (if end > at then [p[at..end]] else []) + Components(p[Behind(p, end)..])
  {
    Dropped(p, at, end - at);
    Dropped(p, at, Behind(p, end) - at);
    assert end < |p| ==> p[at..][end - at] == p[end];
    FirstSegment(p[at..], end - at);
  }

  lemma FirstSegment(s: Path, n: nat)
    requires s != [] && n <= |s| && SLASH !in s[..n] && (n < |s| ==> s[n] == SLASH)
    ensures Components(s) == (if n > 0 then [s[..n]] else []) + Components(s[Behind(s, n)..])
  {
    FirstLength(s, n);
    FirstStep(s, n);
  }

  lemma FirstLength(s: Path, n: nat)
    requires n <= |s| && SLASH !in s[..n] && (n < |s| ==> s[n] == SLASH)
    ensures SegmentLength(s) == n
  {
    hide SegmentLength;
    assert s == s[..n] + s[n..];
    SegmentIs(s[..n], s[n..]);
  }

  lemma FirstStep(s: Path, n: nat)
    requires s != [] && SegmentLength(s) == n
    ensures Components(s) == (if n > 0 then [s[..n]] else []) + Components(s[Behind(s, n)..])
  {
    hide SegmentLength;
    if n == |s| {
      assert s[n..] == [];
    }
  }

  lemma Dropped(p: Path, at: nat, n: nat)
    requires at + n <= |p|
    ensures p[at..][n..] == p[at + n..]
    ensures p[at..][..n] == p[at..at + n]
    ensures p[at..] == p[at..at + n] + p[at + n..]
  {
  }

  lemma Appended(cs: seq<Path>, c: Path, ds: seq<Path>)
    ensures cs + ([c] + ds) == cs + [c] + ds
    ensures cs + ([] + ds) == cs + ds
  {
  }

  /** One call of the line reader: the bytes up to the next slash or the end, and where to go on. */
  method NextSegment(path: Path, at: nat) returns (segment: Path, next: nat)
    requires at < |path|
    ensures at < next <= |path|
    ensures Components(path[at..]) == (if segment != [] then [segment] else []) + Components(path[next..])
  {
    var end := at;
    while end < |path| && path[end] != SLASH
      invariant at <= end <= |path|
      invariant SLASH !in path[at..end]
    {
      end := end + 1;
    }
    segment, next := path[at..end], Behind(path, end);
    SplitSegment(path, at, end);
  }

  /** Splitting as the reader does it: cut off one segment after another, keep the non-empty ones. */
  method SplitPath(path: Path) returns (components: seq<Path>)
    ensures components == Components(path)
  {
    components := [];
    var at := 0;
    while at < |path|
      invariant 0 <= at <= |path|
      invariant components + Components(path[at..]) == Components(path)
    {
      var component, next := NextSegment(path, at);
      Appended(components, component, Components(path[next..]));
      if component != [] {
        components := components + [component];
      }
      at := next;
    }
  }

  // ---------- Walking ----------

  /** What a directory lists; None when it cannot be listed. */
  type Lister = u64 -> Option<seq<FileInfo>>

  /** The first entry of a name. */
  function FirstNamed(entries: seq<FileInfo>, name: Path): Option<FileInfo>
  {
    if entries == [] then None
    else if entries[0].name == name then Some(entries[0])
    else FirstNamed(entries[1..], name)
  }

  /** How far a walk got: whether it reached its end, the inode it stands on, the last entry it took. */
  datatype Walker = Walker(arrived: bool, inode: u64, info: FileInfo)

  function Step(list: Lister, w: Walker, name: Path): Walker
  {
    if !w.arrived then w
    else
      match list(w.inode)
      case None => w.(arrived := false)
      case Some(entries) =>
        match FirstNamed(entries, name)
        case None => w.(arrived := false)
        case Some(e) => Walker(true, e.inode, e)
  }

  function Walk(list: Lister, w: Walker, cs: seq<Path>): Walker
    decreases cs
  {
    if cs == [] then w else Walk(list, Step(list, w, cs[0]), cs[1..])
  }

  /** A walk along names can be cut anywhere: first the one part, then the other from where it ended. */
  lemma {:induction false} WalkCompose(list: Lister, w: Walker, p: seq<Path>, q: seq<Path>)
    ensures Walk(list, w, p + q) == Walk(list, Walk(list, w, p), q)
    decreases p
  {
    if p == [] {
      assert p + q == q;
    } else {
      assert (p + q)[1..] == p[1..] + q;
      WalkCompose(list, Step(list, w, p[0]), p[1..], q);
    }
  }

  lemma {:induction false} LostStaysLost(list: Lister, w: Walker, cs: seq<Path>)
    requires !w.arrived
    ensures Walk(list, w, cs) == w
    decreases cs
  {
    if cs != [] {
      LostStaysLost(list, w, cs[1..]);
    }
  }

  /** Two listing functions that agree give the same walks. */
  lemma {:induction false} WalkExtensional(list: Lister, other: Lister, w: Walker, cs: seq<Path>)
    requires forall inode :: list(inode) == other(inode)
    ensures Walk(list, w, cs) == Walk(other, w, cs)
    decreases cs
  {
    if cs != [] {
      WalkExtensional(list, other, Step(list, w, cs[0]), cs[1..]);
    }
  }

  /** Where every directory lists as empty, a walk takes no step and changes nothing. */
  lemma EmptyListings(list: Lister, w: Walker, cs: seq<Path>)
    requires w.arrived && forall inode :: list(inode) == Some([])
    ensures Walk(list, w, cs) == w.(arrived := cs == [])
  {
    if cs != [] {
      LostStaysLost(list, w.(arrived := false), cs[1..]);
    }
  }

  /** One more component of a walk; a walk that does not arrive there does not arrive at all. */
  lemma WalkNext(list: Lister, w: Walker, cs: seq<Path>, i: nat)
    requires i < |cs|
    ensures var next := Step(list, Walk(list, w, cs[..i]), cs[i]);
            && Walk(list, w, cs[..i + 1]) == next
            && (!next.arrived ==> Walk(list, w, cs) == next)
  {
    assert cs[..i + 1] == cs[..i] + [cs[i]] && cs == cs[..i + 1] + cs[i + 1..];
    WalkCompose(list, w, cs[..i], [cs[i]]);
    WalkCompose(list, w, cs[..i + 1], cs[i + 1..]);
    var next := Step(list, Walk(list, w, cs[..i]), cs[i]);
    LostStaysLost(list, next.(arrived := false), cs[i + 1..]);
  }

  /** A walk that does not arrive got along the first k components but not along the next, and keeps the inode and
      the entry that it had by then. */
  lemma {:induction false} WalkStops(list: Lister, w: Walker, cs: seq<Path>) returns (k: nat)
    requires w.arrived && !Walk(list, w, cs).arrived
    ensures k < |cs| && Walk(list, w, cs[..k]).arrived && !Walk(list, w, cs[..k + 1]).arrived
    ensures Walk(list, w, cs) == Walk(list, w, cs[..k]).(arrived := false)
    ensures var l := list(Walk(list, w, cs[..k]).inode);
            l.None? || forall e | e in l.value :: e.name != cs[k]
    decreases cs
  {
    var next := Step(list, w, cs[0]);
    if next.arrived {
      var m := WalkStops(list, next, cs[1..]);
      k := m + 1;
      assert cs[..k][1..] == cs[1..][..m] && cs[..k + 1][1..] == cs[1..][..m + 1];
    } else {
      k := 0;
      LostStaysLost(list, next, cs[1..]);
      assert cs[..1][1..] == [] && cs[..0] == [];
      if list(w.inode).Some? {
        NoneNamed(list(w.inode).value, cs[0]);
      }
    }
  }

  lemma {:induction false} NoneNamed(entries: seq<FileInfo>, name: Path)
    ensures FirstNamed(entries, name).None? <==> forall e | e in entries :: e.name != name
  {
    if entries != [] {
      NoneNamed(entries[1..], name);
      assert forall e :: e in entries <==> e == entries[0] || e in entries[1..];
    }
  }

  /** The entry has the name, and no entry before it does. */
  ghost predicate IsFirstNamed(entries: seq<FileInfo>, name: Path, e: FileInfo)
  {
    exists k :: 0 <= k < |entries| && FirstAt(entries, name, e, k)
  }

  ghost predicate FirstAt(entries: seq<FileInfo>, name: Path, e: FileInfo, k: int)
    requires 0 <= k < |entries|
  {
    entries[k] == e && e.name == name && forall j | 0 <= j < k :: entries[j].name != name
  }

  /** Link i of a chain of entries: the first of its name in the listing that the chain has reached. */
  ghost predicate Link(list: Lister, inode: u64, cs: seq<Path>, es: seq<FileInfo>, i: nat)
    requires i < |cs| == |es|
  {
    var l := list(if i == 0 then inode else es[i - 1].inode);
    l.Some? && IsFirstNamed(l.value, cs[i], es[i])
  }

  ghost predicate IsChain(list: Lister, inode: u64, cs: seq<Path>, es: seq<FileInfo>)
  {
    |es| == |cs| && forall i: nat | i < |cs| :: Link(list, inode, cs, es, i)
  }

  lemma FirstAtTail(entries: seq<FileInfo>, name: Path, e: FileInfo, k: nat)
    requires k + 1 < |entries| && entries[0].name != name
    ensures FirstAt(entries, name, e, k + 1) <==> FirstAt(entries[1..], name, e, k)
  {
    assert forall j | 0 < j <= k + 1 :: entries[j] == entries[1..][j - 1];
    assert forall j | 0 <= j <= k :: entries[1..][j] == entries[j + 1];
  }

  lemma {:induction false} FirstNamedMeaning(entries: seq<FileInfo>, name: Path, e: FileInfo)
    ensures FirstNamed(entries, name) == Some(e) <==> IsFirstNamed(entries, name, e)
  {
    if entries == [] {
    } else if entries[0].name == name {
      assert FirstAt(entries, name, entries[0], 0);
    } else {
      FirstNamedMeaning(entries[1..], name, e);
      if IsFirstNamed(entries[1..], name, e) {
        var k :| 0 <= k < |entries[1..]| && FirstAt(entries[1..], name, e, k);
        FirstAtTail(entries, name, e, k);
      }
      if IsFirstNamed(entries, name, e) {
        var k :| 0 <= k < |entries| && FirstAt(entries, name, e, k);
        FirstAtTail(entries, name, e, k - 1);
      }
    }
  }

  lemma ChainTail(list: Lister, inode: u64, cs: seq<Path>, es: seq<FileInfo>)
    requires |es| == |cs| > 0
    ensures IsChain(list, inode, cs, es) <==>
            Link(list, inode, cs, es, 0) && IsChain(list, es[0].inode, cs[1..], es[1..])
  {
    forall i: nat | i < |cs[1..]|
      ensures Link(list, es[0].inode, cs[1..], es[1..], i) == Link(list, inode, cs, es, i + 1)
    {
      assert es[1..][i] == es[i + 1] && cs[1..][i] == cs[i + 1];
    }
    if Link(list, inode, cs, es, 0) && IsChain(list, es[0].inode, cs[1..], es[1..]) {
      forall i: nat | i < |cs| ensures Link(list, inode, cs, es, i) {
        assert i > 0 ==> Link(list, es[0].inode, cs[1..], es[1..], i - 1);
      }
    }
  }

  lemma {:induction false} WalkFollowsChain(list: Lister, inode: u64, info: FileInfo, cs: seq<Path>, es: seq<FileInfo>)
    requires IsChain(list, inode, cs, es)
    ensures var w := Walk(list, Walker(true, inode, info), cs);
            w.arrived && (if cs == [] then w.info == info && w.inode == inode
                          else w.info == es[|es| - 1] && w.inode == w.info.inode)
    decreases cs
  {
    if cs != [] {
      ChainTail(list, inode, cs, es);
      FirstNamedMeaning(list(inode).value, cs[0], es[0]);
      WalkFollowsChain(list, es[0].inode, es[0], cs[1..], es[1..]);
    }
  }

  lemma {:induction false} WalkNeedsChain(list: Lister, inode: u64, info: FileInfo, cs: seq<Path>)
    returns (es: seq<FileInfo>)
    requires Walk(list, Walker(true, inode, info), cs).arrived
    ensures IsChain(list, inode, cs, es)
    decreases cs
  {
    if cs == [] {
      es := [];
    } else {
      var w := Step(list, Walker(true, inode, info), cs[0]);
      LostStaysLost(list, Walker(false, w.inode, w.info), cs[1..]);
      FirstNamedMeaning(list(inode).value, cs[0], w.info);
      var rest := WalkNeedsChain(list, w.inode, w.info, cs[1..]);
      es := [w.info] + rest;
      ChainTail(list, inode, cs, es);
    }
  }

  /** Looking p/q up is looking p up and walking q from where that ends; so the number of slashes does not
      matter, and neither does where a path is cut. */
  lemma PathCompose(list: Lister, w: Walker, p: Path, q: Path)
    ensures Walk(list, w, Components(p + [SLASH] + q)) == Walk(list, Walk(list, w, Components(p)), Components(q))
  {
    JoinedPath(p, q);
    WalkCompose(list, w, Components(p), Components(q));
  }

  /** A path arrives exactly when a chain of first-named entries leads along its components. */
  lemma PathArrives(list: Lister, inode: u64, info: FileInfo, p: Path)
    ensures Walk(list, Walker(true, inode, info), Components(p)).arrived
            <==> exists es :: IsChain(list, inode, Components(p), es)
    ensures forall es | IsChain(list, inode, Components(p), es) && es != [] ::
              Walk(list, Walker(true, inode, info), Components(p)).info == es[|es| - 1]
  {
    var cs := Components(p);
    forall es | IsChain(list, inode, cs, es)
      ensures var w := Walk(list, Walker(true, inode, info), cs); w.arrived && (es != [] ==> w.info == es[|es| - 1])
    {
      WalkFollowsChain(list, inode, info, cs, es);
    }
    if Walk(list, Walker(true, inode, info), cs).arrived {
      var es := WalkNeedsChain(list, inode, info, cs);
    }
  }
}
