/** The domain-suffix trie of src/suffix.rs.

    A domain is cut at every '.', and its labels are walked top-level domain
    first.  A node is either Terminal (a registered domain ends here, and so
    every domain below it is covered) or Internal (a map from the next label
    to the child).  The pure functions below are the reference semantics;
    the class `SuffixTree` holds the root and walks it with the same cursor
    loops as the source. */
module Suffix {
  import opened Errors

  // ------------------------------------------------------------------
  // Labels: `split`
  // ------------------------------------------------------------------

  predicate DotFree(l: string) { '.' !in l }

  predicate AllDotFree(ls: seq<string>) { forall i :: 0 <= i < |ls| ==> DotFree(ls[i]) }

  /** `str::split('.')`: the labels of `s` from left to right; an empty
      string, and the text on either side of every dot, is one label. */
  function Labels(s: string): (r: seq<string>)
    ensures |r| >= 1
    decreases |s|
  {
    if |s| == 0 then [""]
    else
      var rest := Labels(s[1..]);
      if s[0] == '.' then [""] + rest else [[s[0]] + rest[0]] + rest[1..]
  }

  /** The inverse of `Labels`: the labels glued back with dots. */
  function Join(ls: seq<string>): string
    requires |ls| >= 1
  {
    if |ls| == 1 then ls[0] else ls[0] + "." + Join(ls[1..])
  }

  function Reverse<T>(s: seq<T>): (r: seq<T>)
    ensures |r| == |s|
  {
    if s == [] then [] else Reverse(s[1..]) + [s[0]]
  }

  lemma {:induction false} ReverseConcat<T>(a: seq<T>, b: seq<T>)
    ensures Reverse(a + b) == Reverse(b) + Reverse(a)
    decreases |a|
  {
    if a == [] {
      assert a + b == b;
    } else {
      assert (a + b)[1..] == a[1..] + b;
      ReverseConcat(a[1..], b);
    }
  }

  lemma {:induction false} ReverseReverse<T>(s: seq<T>)
    ensures Reverse(Reverse(s)) == s
    decreases |s|
  {
    if s != [] {
      ReverseConcat(Reverse(s[1..]), [s[0]]);
      ReverseReverse(s[1..]);
      assert Reverse([s[0]]) == [s[0]];
      assert s == [s[0]] + s[1..];
    }
  }

  lemma {:induction false} LabelsDotFree(s: string)
    ensures AllDotFree(Labels(s))
    decreases |s|
  {
    if |s| > 0 {
      LabelsDotFree(s[1..]);
      var rest := Labels(s[1..]);
      if s[0] != '.' {
        assert DotFree(rest[0]);
        assert DotFree([s[0]] + rest[0]);
      }
    }
  }

  lemma {:induction false} JoinLabels(s: string)
    ensures Join(Labels(s)) == s
    decreases |s|
  {
    if |s| > 0 {
      JoinLabels(s[1..]);
      var rest := Labels(s[1..]);
      assert s == [s[0]] + s[1..];
      if s[0] == '.' {
        assert ([""] + rest)[1..] == rest;
      } else if |rest| > 1 {
        var tail := rest[1..];
        assert rest == [rest[0]] + tail;
        JoinCons(rest[0], tail);
        JoinCons([s[0]] + rest[0], tail);
        assert ([s[0]] + rest[0]) + "." + Join(tail) == [s[0]] + (rest[0] + "." + Join(tail));
      }
    }
  }

  lemma JoinCons(x: string, ls: seq<string>)
    requires |ls| >= 1
    ensures Join([x] + ls) == x + "." + Join(ls)
  {
    assert ([x] + ls)[1..] == ls;
  }

  /** Splitting the text on both sides of a dot splits the whole. */
  lemma {:induction false} LabelsConcat(a: string, b: string)
    ensures Labels(a + "." + b) == Labels(a) + Labels(b)
    decreases |a|
  {
    if |a| == 0 {
      assert a + "." + b == "." + b;
      assert ("." + b)[1..] == b;
    } else {
      assert (a + "." + b)[1..] == a[1..] + "." + b;
      LabelsConcat(a[1..], b);
    }
  }

  lemma {:induction false} JoinConcat(a: seq<string>, b: seq<string>)
    requires |a| >= 1 && |b| >= 1
    ensures Join(a + b) == Join(a) + "." + Join(b)
    decreases |a|
  {
    if |a| > 1 {
      assert (a + b)[1..] == a[1..] + b;
      JoinConcat(a[1..], b);
    } else {
      assert (a + b)[1..] == b;
    }
  }

  lemma LabelsOfDotFree(l: string)
    requires DotFree(l)
    ensures Labels(l) == [l]
    decreases |l|
  {
    if |l| > 0 {
      LabelsOfDotFree(l[1..]);
      assert l == [l[0]] + l[1..];
    }
  }

  /** Labels without dots are recovered exactly from their join. */
  lemma {:induction false} LabelsJoin(ls: seq<string>)
    requires |ls| >= 1 && AllDotFree(ls)
    ensures Labels(Join(ls)) == ls
    decreases |ls|
  {
    LabelsOfDotFree(ls[0]);
    if |ls| > 1 {
      LabelsJoin(ls[1..]);
      LabelsConcat(ls[0], Join(ls[1..]));
      assert ls == [ls[0]] + ls[1..];
    }
  }

  /** `split`: the labels of `domain` in reverse order, top-level domain
      first; there is always at least one label. */
  function Split(domain: string): (r: seq<string>)
    ensures |r| >= 1
  {
    Reverse(Labels(domain))
  }

  /** No label of `split` holds a dot, and joining the labels back in
      reading order gives the domain: `split` loses nothing. */
  lemma SplitJoin(domain: string)
    ensures AllDotFree(Split(domain))
    ensures Join(Reverse(Split(domain))) == domain
  {
    var ls := Labels(domain);
    LabelsDotFree(domain);
    JoinLabels(domain);
    ReverseReverse(ls);
    forall i | 0 <= i < |ls| ensures DotFree(Reverse(ls)[i]) {
      ReverseAt(ls, i);
    }
  }

  lemma {:induction false} ReverseAt<T>(s: seq<T>, i: nat)
    requires i < |s|
    ensures Reverse(s)[i] == s[|s| - 1 - i]
    decreases |s|
  {
    if i < |s| - 1 {
      ReverseAt(s[1..], i);
    }
  }

  /** Two domains with the same labels are the same domain. */
  lemma SplitInjective(a: string, b: string)
    requires Split(a) == Split(b)
    ensures a == b
  {
    SplitJoin(a);
    SplitJoin(b);
  }

  /** Prepending a label (or several) to a domain appends labels to its
      split, after the labels of the domain itself. */
  lemma SplitConcat(sub: string, d: string)
    ensures Split(sub + "." + d) == Split(d) + Split(sub)
  {
    LabelsConcat(sub, d);
    ReverseConcat(Labels(sub), Labels(d));
  }

  lemma SplitEmpty()
    ensures Split("") == [""]
  {
  }

  // ------------------------------------------------------------------
  // Label-suffix relation between domains
  // ------------------------------------------------------------------

  predicate IsPrefix(p: seq<string>, q: seq<string>) { |p| <= |q| && q[..|p|] == p }

  /** `q` is `d` itself, or `d` with one or more labels prepended. */
  predicate IsSubdomainOrSelf(q: string, d: string)
  {
    q == d || (|q| > |d| && q[|q| - |d| - 1..] == "." + d)
  }

  lemma SubdomainLabels(d: string, q: string)
    requires IsSubdomainOrSelf(q, d)
    ensures IsPrefix(Split(d), Split(q))
  {
    if q != d {
      var sub := q[..|q| - |d| - 1];
      assert q == sub + "." + d;
      SplitConcat(sub, d);
      assert Split(q)[..|Split(d)|] == Split(d);
    }
  }

  lemma LabelsSubdomain(d: string, q: string)
    requires IsPrefix(Split(d), Split(q))
    ensures IsSubdomainOrSelf(q, d)
  {
    var R := Split(q)[|Split(d)|..];
    LabelsExtra(d, q);
    JoinLabels(q);
    JoinLabels(d);
    if R != [] {
      JoinConcat(Reverse(R), Labels(d));
      var sub := Join(Reverse(R));
      assert q == sub + "." + d;
      assert q[|q| - |d| - 1..] == "." + d;
    } else {
      assert Labels(q) == Labels(d);
    }
  }

  /** When the labels of `d` lead those of `q`, the labels of `q` in reading
      order are the extra ones followed by those of `d`. */
  lemma LabelsExtra(d: string, q: string)
    requires IsPrefix(Split(d), Split(q))
    ensures Labels(q) == Reverse(Split(q)[|Split(d)|..]) + Labels(d)
  {
    var P, Q := Split(d), Split(q);
    var R := Q[|P|..];
    assert Q == P + R;
    ReverseReverse(Labels(q));
    ReverseReverse(Labels(d));
    ReverseConcat(P, R);
  }

  /** The labels of `d` lead the labels of `q` exactly when `q` is `d` or
      a subdomain of it: the trie's label walk is a suffix test on the text. */
  lemma SuffixLabels(d: string, q: string)
    ensures IsPrefix(Split(d), Split(q)) <==> IsSubdomainOrSelf(q, d)
  {
    if IsSubdomainOrSelf(q, d) { SubdomainLabels(d, q); }
    if IsPrefix(Split(d), Split(q)) { LabelsSubdomain(d, q); }
  }

  // ------------------------------------------------------------------
  // The trie as a value
  // ------------------------------------------------------------------

  /** `SuffixTree { hash: None }` is Terminal, `Some(map)` is Internal. */
  datatype Node = Terminal | Internal(children: map<string, Node>)

  const Empty: Node := Internal(map[])

  /** `insert` on label sequence `ls`: walk from `n`, creating empty
      Internal nodes for missing labels; stop unchanged at a Terminal node;
      turn the node reached after the last label into Terminal, which drops
      whatever lay below it. */
  function InsertLabels(n: Node, ls: seq<string>): Node
    decreases |ls|
  {
    match n
    case Terminal => Terminal
    case Internal(m) =>
      if ls == [] then Terminal
      else
        var child := if ls[0] in m then m[ls[0]] else Empty;
        Internal(m[ls[0] := InsertLabels(child, ls[1..])])
  }

  /** `matches` on label sequence `ls`: at a Terminal node all remaining
      labels are skipped; a label missing from an Internal node fails; the
      walk succeeds when it ends on a Terminal node. */
  function MatchLabels(n: Node, ls: seq<string>): bool
    decreases |ls|
  {
    match n
    case Terminal => true
    case Internal(m) => ls != [] && ls[0] in m && MatchLabels(m[ls[0]], ls[1..])
  }

  /** The node reached by following `ls` exactly, if there is one. */
  function At(n: Node, ls: seq<string>): Option<Node>
    decreases |ls|
  {
    if ls == [] then Some(n)
    else match n
      case Terminal => None
      case Internal(m) => if ls[0] in m then At(m[ls[0]], ls[1..]) else None
  }

  /** The label paths from `n` to its Terminal nodes. */
  ghost function TerminalPaths(n: Node): set<seq<string>>
  {
    match n
    case Terminal => {[]}
    case Internal(m) => set k, p | k in m && p in TerminalPaths(m[k]) :: [k] + p
  }

  /** Terminal paths that leave a node with child map `m` by a label in `keys`. */
  ghost function PathsVia(m: map<string, Node>, keys: set<string>): set<seq<string>>
  {
    set k, p | k in keys && k in m && p in TerminalPaths(m[k]) :: [k] + p
  }

  /** The tree that `FromIterator` builds: the domains inserted in order
      into a new tree. */
  function Build(domains: seq<string>): Node
  {
    if domains == [] then Empty
    else InsertLabels(Build(domains[..|domains| - 1]), Split(domains[|domains| - 1]))
  }

  // ------------------------------------------------------------------
  // Matching semantics
  // ------------------------------------------------------------------

  lemma EmptyMatchesNothing(q: seq<string>)
    ensures !MatchLabels(Empty, q)
  {
  }

  /** After inserting `p`, a query matches exactly when `p` leads it or it
      matched before. */
  lemma {:induction false} InsertMatches(n: Node, p: seq<string>, q: seq<string>)
    ensures MatchLabels(InsertLabels(n, p), q) <==> IsPrefix(p, q) || MatchLabels(n, q)
    decreases |p|
  {
    match n
    case Terminal =>
    case Internal(m) =>
      if p != [] && q != [] {
        var child := if p[0] in m then m[p[0]] else Empty;
        if q[0] == p[0] {
          InsertMatches(child, p[1..], q[1..]);
          assert IsPrefix(p, q) <==> IsPrefix(p[1..], q[1..]);
        } else {
          assert !IsPrefix(p, q);
        }
      }
  }

  /** After `insert(d)` the tree matches `d` and every subdomain of it,
      whatever it held before. */
  lemma InsertedDomainMatches(n: Node, d: string, q: string)
    requires IsSubdomainOrSelf(q, d)
    ensures MatchLabels(InsertLabels(n, Split(d)), Split(q))
  {
    InsertMatches(n, Split(d), Split(q));
    SuffixLabels(d, q);
  }

  /** A tree built from `domains` matches a label sequence exactly when the
      labels of some inserted domain lead it, whatever the insertion order. */
  lemma {:induction false} BuildMatches(domains: seq<string>, q: seq<string>)
    ensures MatchLabels(Build(domains), q)
        <==> exists i :: 0 <= i < |domains| && IsPrefix(Split(domains[i]), q)
    decreases |domains|
  {
    if domains != [] {
      var last := |domains| - 1;
      var init := domains[..last];
      BuildMatches(init, q);
      InsertMatches(Build(init), Split(domains[last]), q);
      if exists i :: 0 <= i < |init| && IsPrefix(Split(init[i]), q) {
        var i :| 0 <= i < |init| && IsPrefix(Split(init[i]), q);
        assert domains[i] == init[i];
      }
      if exists i :: 0 <= i < |domains| && IsPrefix(Split(domains[i]), q) {
        var i :| 0 <= i < |domains| && IsPrefix(Split(domains[i]), q);
        if i < last { assert init[i] == domains[i]; }
      }
    }
  }

  /** The same in the system's own terms: `query` matches exactly when it is
      an inserted domain or a subdomain of one. */
  lemma BuildMatchesDomain(domains: seq<string>, query: string)
    ensures MatchLabels(Build(domains), Split(query))
        <==> exists i :: 0 <= i < |domains| && IsSubdomainOrSelf(query, domains[i])
  {
    BuildMatches(domains, Split(query));
    forall i | 0 <= i < |domains|
      ensures IsPrefix(Split(domains[i]), Split(query)) <==> IsSubdomainOrSelf(query, domains[i])
    {
      SuffixLabels(domains[i], query);
    }
  }

  /** Match results depend only on the set of inserted domains: order and
      repetition do not matter. */
  lemma BuildOrderIrrelevant(ds1: seq<string>, ds2: seq<string>, q: seq<string>)
    requires forall d :: d in ds1 <==> d in ds2
    ensures MatchLabels(Build(ds1), q) == MatchLabels(Build(ds2), q)
  {
    BuildMatches(ds1, q);
    BuildMatches(ds2, q);
    if exists i :: 0 <= i < |ds1| && IsPrefix(Split(ds1[i]), q) {
      var i :| 0 <= i < |ds1| && IsPrefix(Split(ds1[i]), q);
      assert ds1[i] in ds2;
      var j :| 0 <= j < |ds2| && ds2[j] == ds1[i];
    }
    if exists j :: 0 <= j < |ds2| && IsPrefix(Split(ds2[j]), q) {
      var j :| 0 <= j < |ds2| && IsPrefix(Split(ds2[j]), q);
      assert ds2[j] in ds1;
      var i :| 0 <= i < |ds1| && ds1[i] == ds2[j];
    }
  }

  /** The walk of `matches` succeeds exactly when some leading part of the
      query is the path of a Terminal node. */
  lemma MatchIffTerminalPrefix(n: Node, q: seq<string>)
    ensures MatchLabels(n, q) <==> exists k :: 0 <= k <= |q| && q[..k] in TerminalPaths(n)
  {
    if MatchLabels(n, q) {
      var k := MatchPath(n, q);
    }
    if exists k :: 0 <= k <= |q| && q[..k] in TerminalPaths(n) {
      var k :| 0 <= k <= |q| && q[..k] in TerminalPaths(n);
      PathMatch(n, q, k);
    }
  }

  /** A successful walk ends on a Terminal node after `k` labels. */
  lemma {:induction false} MatchPath(n: Node, q: seq<string>) returns (k: nat)
    requires MatchLabels(n, q)
    ensures k <= |q| && q[..k] in TerminalPaths(n)
    decreases |q|
  {
    match n
    case Terminal =>
      k := 0;
      assert q[..0] == [];
    case Internal(m) =>
      var k' := MatchPath(m[q[0]], q[1..]);
      k := k' + 1;
      assert q[..k] == [q[0]] + q[1..][..k'];
  }

  /** A Terminal node on the query's path makes the walk succeed. */
  lemma {:induction false} PathMatch(n: Node, q: seq<string>, k: nat)
    requires k <= |q| && q[..k] in TerminalPaths(n)
    ensures MatchLabels(n, q)
    decreases k
  {
    match n
    case Terminal =>
    case Internal(m) =>
      var key, p :| key in m && p in TerminalPaths(m[key]) && [key] + p == q[..k];
      assert k >= 1 && q[0] == key;
      assert p == ([key] + p)[1..] == q[..k][1..];
      assert q[..k][1..] == q[1..][..k - 1];
      PathMatch(m[key], q[1..], k - 1);
  }

  /** A node has no Terminal node below it exactly when it matches no
      label sequence at all. */
  lemma NoEntriesMatchesNothing(n: Node)
    ensures |TerminalPaths(n)| == 0 ==> forall q: seq<string> :: !MatchLabels(n, q)
    ensures |TerminalPaths(n)| != 0 ==> exists q: seq<string> :: MatchLabels(n, q)
  {
    if |TerminalPaths(n)| != 0 {
      var p :| p in TerminalPaths(n);
      assert p[..|p|] == p;
      PathMatch(n, p, |p|);
      assert MatchLabels(n, p);
    } else {
      forall q: seq<string>
        ensures !MatchLabels(n, q)
      {
        assert TerminalPaths(n) == {};
        MatchIffTerminalPrefix(n, q);
      }
    }
  }

  /** Only a Terminal node matches every label sequence. */
  lemma CoversEverything(n: Node)
    ensures n.Terminal? <==> forall q: seq<string> :: MatchLabels(n, q)
  {
    if !n.Terminal? {
      assert !MatchLabels(n, []);
    }
  }

  // ------------------------------------------------------------------
  // Shape of insertion
  // ------------------------------------------------------------------

  /** Inserting leaves the tree unchanged exactly when the labels are
      already covered: below an existing Terminal node, or at one. */
  lemma {:induction false} InsertUnchanged(n: Node, p: seq<string>)
    ensures InsertLabels(n, p) == n <==> MatchLabels(n, p)
    decreases |p|
  {
    if MatchLabels(n, p) {
      match n
      case Terminal =>
      case Internal(m) =>
        InsertUnchanged(m[p[0]], p[1..]);
        assert m[p[0] := m[p[0]]] == m;
    }
    if InsertLabels(n, p) == n {
      InsertMatches(n, p, p);
    }
  }

  /** Inserting the same labels twice is inserting them once. */
  lemma InsertIdempotent(n: Node, p: seq<string>)
    ensures InsertLabels(InsertLabels(n, p), p) == InsertLabels(n, p)
  {
    InsertMatches(n, p, p);
    InsertUnchanged(InsertLabels(n, p), p);
  }

  /** Inserting below a Terminal node returns early and changes nothing. */
  lemma {:induction false} InsertBelowTerminal(n: Node, p: seq<string>, k: nat)
    requires k <= |p| && At(n, p[..k]) == Some(Terminal)
    ensures InsertLabels(n, p) == n
    decreases |p|
  {
    if k > 0 {
      match n
      case Internal(m) =>
        assert p[..k][1..] == p[1..][..k - 1];
        InsertBelowTerminal(m[p[0]], p[1..], k - 1);
        assert m[p[0] := m[p[0]]] == m;
    }
  }

  /** After inserting `p` no node lies strictly below `p`: an ancestor
      insertion prunes the deeper structure. */
  lemma {:induction false} InsertPrunes(n: Node, p: seq<string>, q: seq<string>)
    requires IsPrefix(p, q) && |q| > |p|
    ensures At(InsertLabels(n, p), q) == None
    decreases |p|
  {
    match n
    case Terminal =>
    case Internal(m) =>
      if p != [] {
        var child := if p[0] in m then m[p[0]] else Empty;
        InsertPrunes(child, p[1..], q[1..]);
      }
  }

  /** Insertions commute: the tree itself, not only its match results, is
      independent of the order of two insertions. */
  lemma {:induction false} InsertCommutes(n: Node, p: seq<string>, q: seq<string>)
    ensures InsertLabels(InsertLabels(n, p), q) == InsertLabels(InsertLabels(n, q), p)
    decreases |p|
  {
    match n
    case Terminal =>
    case Internal(m) =>
      if p != [] && q != [] && p[0] == q[0] {
        var child := if p[0] in m then m[p[0]] else Empty;
        InsertCommutes(child, p[1..], q[1..]);
        assert m[p[0] := InsertLabels(child, p[1..])][p[0] := InsertLabels(InsertLabels(child, p[1..]), q[1..])]
            == m[p[0] := InsertLabels(InsertLabels(child, p[1..]), q[1..])];
      } else if p != [] && q != [] {
        var cp := if p[0] in m then m[p[0]] else Empty;
        var cq := if q[0] in m then m[q[0]] else Empty;
        assert m[p[0] := InsertLabels(cp, p[1..])][q[0] := InsertLabels(cq, q[1..])]
            == m[q[0] := InsertLabels(cq, q[1..])][p[0] := InsertLabels(cp, p[1..])];
      }
  }

  /** Moving one domain to the end of the insertion order builds the same
      tree. */
  lemma {:induction false} BuildMoveLast(a: seq<string>, x: string, b: seq<string>)
    ensures Build(a + [x] + b) == Build(a + b + [x])
    decreases |b|
  {
    if b == [] {
      assert a + [x] + b == a + b + [x];
    } else {
      var b', y := b[..|b| - 1], b[|b| - 1];
      assert (a + [x] + b)[..|a + [x] + b| - 1] == a + [x] + b';
      assert (a + b + [x])[..|a + b + [x]| - 1] == a + b;
      assert (a + b)[..|a + b| - 1] == a + b';
      assert (a + b' + [x])[..|a + b' + [x]| - 1] == a + b';
      BuildMoveLast(a, x, b');
      InsertCommutes(Build(a + b'), Split(x), Split(y));
    }
  }

  /** `FromIterator` builds the same tree from any ordering of the same
      domains. */
  lemma {:induction false} BuildPermutation(ds1: seq<string>, ds2: seq<string>)
    requires multiset(ds1) == multiset(ds2)
    ensures Build(ds1) == Build(ds2)
    decreases |ds1|
  {
    if ds1 != [] {
      var init, x := ds1[..|ds1| - 1], ds1[|ds1| - 1];
      assert ds1 == init + [x];
      assert x in multiset(ds2);
      var j :| 0 <= j < |ds2| && ds2[j] == x;
      var a, b := ds2[..j], ds2[j + 1..];
      assert ds2 == a + [x] + b;
      MultisetRemove(init, x, a, b);
      BuildPermutation(init, a + b);
      BuildMoveLast(a, x, b);
      assert (a + b + [x])[..|a + b + [x]| - 1] == a + b;
    } else {
      assert |ds2| == |multiset(ds2)|;
    }
  }

  /** Taking the same element out of two equal multisets. */
  lemma MultisetRemove(init: seq<string>, x: string, a: seq<string>, b: seq<string>)
    requires multiset(init + [x]) == multiset(a + [x] + b)
    ensures multiset(init) == multiset(a + b)
  {
    calc {
      multiset(init) + multiset{x};
      multiset(init + [x]);
      multiset(a + [x] + b);
      multiset(a) + multiset{x} + multiset(b);
      multiset(a + b) + multiset{x};
    }
    assert multiset(init) == (multiset(init) + multiset{x}) - multiset{x};
    assert multiset(a + b) == (multiset(a + b) + multiset{x}) - multiset{x};
  }

  /** The root of a tree built by insertion stays Internal: every domain
      has at least one label. */
  lemma {:induction false} BuildRootInternal(domains: seq<string>)
    ensures Build(domains).Internal?
    decreases |domains|
  {
    if domains != [] {
      BuildRootInternal(domains[..|domains| - 1]);
    }
  }

  // ------------------------------------------------------------------
  // Counting Terminal nodes
  // ------------------------------------------------------------------

  ghost function Prefixed(k: string, s: set<seq<string>>): set<seq<string>>
  {
    set p | p in s :: [k] + p
  }

  lemma {:induction false} PrefixedSize(k: string, s: set<seq<string>>)
    ensures |Prefixed(k, s)| == |s|
    decreases |s|
  {
    if s != {} {
      var x :| x in s;
      PrefixedSize(k, s - {x});
      assert Prefixed(k, s) == Prefixed(k, s - {x}) + {[k] + x};
      forall y | y in s - {x} ensures [k] + y != [k] + x {
        assert ([k] + y)[1..] == y && ([k] + x)[1..] == x;
      }
    }
  }

  /** Paths through one more child add that child's Terminal paths. */
  lemma PathsViaAdd(m: map<string, Node>, keys: set<string>, k: string)
    requires k in m && k !in keys
    ensures |PathsVia(m, keys + {k})| == |PathsVia(m, keys)| + |TerminalPaths(m[k])|
  {
    var a, b := PathsVia(m, keys), Prefixed(k, TerminalPaths(m[k]));
    assert PathsVia(m, keys + {k}) == a + b;
    forall x | x in a ensures x[0] in keys {
      var k', p' :| k' in keys && k' in m && p' in TerminalPaths(m[k']) && x == [k'] + p';
    }
    forall x | x in b ensures x[0] == k {
      var p :| p in TerminalPaths(m[k]) && x == [k] + p;
    }
    assert a * b == {};
    PrefixedSize(k, TerminalPaths(m[k]));
  }

  /** Terminal paths after an insertion: unchanged when the labels were
      covered; otherwise the paths below `p` are dropped and `p` is added. */
  lemma {:induction false} InsertTerminalPaths(n: Node, p: seq<string>)
    ensures TerminalPaths(InsertLabels(n, p))
         == if MatchLabels(n, p) then TerminalPaths(n) else Pruned(TerminalPaths(n), p) + {p}
    decreases |p|
  {
    if MatchLabels(n, p) {
      InsertUnchanged(n, p);
    } else {
      match n
      case Internal(m) =>
        if p == [] {
          assert Pruned(TerminalPaths(n), p) == {};
        } else {
          var child := if p[0] in m then m[p[0]] else Empty;
          InsertTerminalPaths(child, p[1..]);
          InsertPathsSub(m, p);
          InsertPathsSup(m, p);
        }
    }
  }

  /** The paths of `ps` that `p` does not lead. */
  ghost function Pruned(ps: set<seq<string>>, p: seq<string>): set<seq<string>>
  {
    set t | t in ps && !IsPrefix(p, t)
  }

  lemma InsertPathsSub(m: map<string, Node>, p: seq<string>)
    requires p != [] && !MatchLabels(Internal(m), p)
    requires var child := if p[0] in m then m[p[0]] else Empty;
      TerminalPaths(InsertLabels(child, p[1..])) == Pruned(TerminalPaths(child), p[1..]) + {p[1..]}
    ensures TerminalPaths(InsertLabels(Internal(m), p)) <= Pruned(TerminalPaths(Internal(m)), p) + {p}
  {
    var a := p[0];
    var child := if a in m then m[a] else Empty;
    var m' := m[a := InsertLabels(child, p[1..])];
    assert InsertLabels(Internal(m), p) == Internal(m');
    assert p == [a] + p[1..];
    assert TerminalPaths(Empty) == {};
    forall x | x in TerminalPaths(Internal(m'))
      ensures x in Pruned(TerminalPaths(Internal(m)), p) + {p}
    {
      var k, t :| k in m' && t in TerminalPaths(m'[k]) && x == [k] + t;
      PrefixCons(a, p[1..], k, t);
      if k == a && t == p[1..] {
        assert x == p;
      } else if k == a {
        assert t in TerminalPaths(child);
        assert a in m;
        assert x in TerminalPaths(Internal(m));
      } else {
        assert x in TerminalPaths(Internal(m));
      }
    }
  }

  lemma InsertPathsSup(m: map<string, Node>, p: seq<string>)
    requires p != [] && !MatchLabels(Internal(m), p)
    requires var child := if p[0] in m then m[p[0]] else Empty;
      TerminalPaths(InsertLabels(child, p[1..])) == Pruned(TerminalPaths(child), p[1..]) + {p[1..]}
    ensures Pruned(TerminalPaths(Internal(m)), p) + {p} <= TerminalPaths(InsertLabels(Internal(m), p))
  {
    var a := p[0];
    var child := if a in m then m[a] else Empty;
    var child' := InsertLabels(child, p[1..]);
    var m' := m[a := child'];
    assert InsertLabels(Internal(m), p) == Internal(m');
    assert p == [a] + p[1..];
    forall x | x in Pruned(TerminalPaths(Internal(m)), p) + {p}
      ensures x in TerminalPaths(Internal(m'))
    {
      if x == p {
        assert p[1..] in TerminalPaths(child');
      } else {
        var k, t :| k in m && t in TerminalPaths(m[k]) && x == [k] + t;
        PrefixCons(a, p[1..], k, t);
        if k == a {
          assert t in TerminalPaths(child');
        }
        assert t in TerminalPaths(m'[k]);
      }
    }
  }

  lemma PrefixCons(a: string, p: seq<string>, b: string, t: seq<string>)
    ensures IsPrefix([a] + p, [b] + t) <==> a == b && IsPrefix(p, t)
  {
    if IsPrefix([a] + p, [b] + t) {
      assert ([b] + t)[..|p| + 1] == [b] + t[..|p|];
      assert ([a] + p)[0] == a && ([a] + p)[1..] == p;
      assert ([b] + t[..|p|])[0] == b && ([b] + t[..|p|])[1..] == t[..|p|];
    }
    if a == b && IsPrefix(p, t) {
      assert ([b] + t)[..|p| + 1] == [b] + t[..|p|];
    }
  }

  ghost function Registered(domains: seq<string>): set<seq<string>>
  {
    set i | 0 <= i < |domains| :: Split(domains[i])
  }

  /** The registered label paths that no other registered path leads. */
  ghost function Minimal(ps: set<seq<string>>): set<seq<string>>
  {
    set p | p in ps && forall q :: q in ps && IsPrefix(q, p) ==> q == p
  }

  lemma MinimalAdd(ps: set<seq<string>>, p: seq<string>)
    ensures Minimal(ps + {p})
         == if exists q :: q in ps && IsPrefix(q, p) then Minimal(ps)
            else Pruned(Minimal(ps), p) + {p}
  {
    if exists q :: q in ps && IsPrefix(q, p) {
      var q :| q in ps && IsPrefix(q, p);
      forall t | t in Minimal(ps) ensures t in Minimal(ps + {p}) {
        if IsPrefix(p, t) {
          assert IsPrefix(q, t) by { assert t[..|q|] == t[..|p|][..|q|]; }
        }
      }
      forall t | t in Minimal(ps + {p}) ensures t in Minimal(ps) {
        if t == p { assert q == p; }
      }
    } else {
      var rhs := Pruned(Minimal(ps), p) + {p};
      forall t | t in Minimal(ps + {p}) ensures t in rhs {
        if t != p {
          assert t in Minimal(ps);
          assert !IsPrefix(p, t);
        }
      }
      forall t | t in rhs ensures t in Minimal(ps + {p}) {
        if t != p {
          forall q | q in ps + {p} && IsPrefix(q, t) ensures q == t {
            assert q != p;
          }
        }
      }
    }
  }

  lemma RegisteredSnoc(domains: seq<string>)
    requires domains != []
    ensures Registered(domains)
         == Registered(domains[..|domains| - 1]) + {Split(domains[|domains| - 1])}
  {
    var last := |domains| - 1;
    var init := domains[..last];
    forall x | x in Registered(domains) ensures x in Registered(init) + {Split(domains[last])} {
      var i :| 0 <= i < |domains| && x == Split(domains[i]);
      if i < last { assert domains[i] == init[i]; }
    }
    forall x | x in Registered(init) ensures x in Registered(domains) {
      var i :| 0 <= i < |init| && x == Split(init[i]);
      assert init[i] == domains[i];
    }
  }

  /** A built tree matches `q` exactly when some registered path leads it. */
  lemma BuildMatchesRegistered(domains: seq<string>, q: seq<string>)
    ensures MatchLabels(Build(domains), q) <==> exists r :: r in Registered(domains) && IsPrefix(r, q)
  {
    BuildMatches(domains, q);
    if exists r :: r in Registered(domains) && IsPrefix(r, q) {
      var r :| r in Registered(domains) && IsPrefix(r, q);
      var i :| 0 <= i < |domains| && r == Split(domains[i]);
    }
    if exists i :: 0 <= i < |domains| && IsPrefix(Split(domains[i]), q) {
      var i :| 0 <= i < |domains| && IsPrefix(Split(domains[i]), q);
      assert Split(domains[i]) in Registered(domains);
    }
  }

  /** A built tree has one Terminal node per registered domain that no other
      registered domain covers: `len` counts non-redundant domains. */
  lemma {:induction false} BuildTerminalPaths(domains: seq<string>)
    ensures TerminalPaths(Build(domains)) == Minimal(Registered(domains))
    decreases |domains|
  {
    if domains == [] {
      assert Registered(domains) == {};
    } else {
      var init := domains[..|domains| - 1];
      var p := Split(domains[|domains| - 1]);
      BuildTerminalPaths(init);
      InsertTerminalPaths(Build(init), p);
      RegisteredSnoc(domains);
      MinimalAdd(Registered(init), p);
      BuildMatchesRegistered(init, p);
    }
  }

  /** Re-inserting a registered domain leaves the tree, and so its count,
      unchanged. */
  lemma ReinsertUnchanged(domains: seq<string>, d: string)
    requires d in domains
    ensures InsertLabels(Build(domains), Split(d)) == Build(domains)
  {
    var i :| 0 <= i < |domains| && domains[i] == d;
    BuildMatches(domains, Split(d));
    InsertUnchanged(Build(domains), Split(d));
  }

  // ------------------------------------------------------------------
  // `PartialEq`
  // ------------------------------------------------------------------

  /** `PartialEq for SuffixTree<String>`: Terminal equals Terminal, two
      Internal nodes are equal when their maps have the same labels and
      equal children.  This is exactly equality of the tree values. */
  function NodeEq(a: Node, b: Node): (r: bool)
    ensures r <==> a == b
  {
    match (a, b)
    case (Internal(x), Internal(y)) =>
      var same := x.Keys == y.Keys && forall k :: k in x ==> NodeEq(x[k], y[k]);
      assert same ==> x == y by {
        if same { assert forall k :: k in x ==> x[k] == y[k]; }
      }
      same
    case (Terminal, Terminal) => true
    case _ => false
  }

  // ------------------------------------------------------------------
  // The mutable tree
  // ------------------------------------------------------------------

  /** One step down the tree taken by `insert`: the map of the node left
      (with the child already in it) and the label followed. */
  datatype Frame = Frame(siblings: map<string, Node>, key: string)

  /** The whole tree seen from a cursor: `path` lists, root first, the
      frames passed on the way down to the cursor node `s`. */
  function Plug(path: seq<Frame>, s: Node): Node
    decreases |path|
  {
    if path == [] then s
    else
      var f := path[|path| - 1];
      Plug(path[..|path| - 1], Internal(f.siblings[f.key := s]))
  }

  lemma PlugSnoc(path: seq<Frame>, f: Frame, s: Node)
    ensures Plug(path + [f], s) == Plug(path, Internal(f.siblings[f.key := s]))
  {
    assert (path + [f])[..|path|] == path;
  }

  /** One iteration of `insert`'s loop over an Internal node: the child for
      the next label is created if missing, and the cursor moves to it. */
  lemma InsertStep(path: seq<Frame>, m: map<string, Node>, ls: seq<string>)
    requires ls != []
    ensures var m' := if ls[0] in m then m else m[ls[0] := Empty];
            && Plug(path, InsertLabels(Internal(m), ls))
               == Plug(path + [Frame(m', ls[0])], InsertLabels(m'[ls[0]], ls[1..]))
            && Plug(path + [Frame(m', ls[0])], m'[ls[0]]) == Plug(path, Internal(m'))
  {
    var m' := if ls[0] in m then m else m[ls[0] := Empty];
    var next := m'[ls[0]];
    PlugSnoc(path, Frame(m', ls[0]), next);
    PlugSnoc(path, Frame(m', ls[0]), InsertLabels(next, ls[1..]));
    assert m'[ls[0] := next] == m';
    assert m'[ls[0] := InsertLabels(next, ls[1..])] == m[ls[0] := InsertLabels(next, ls[1..])];
  }

  /** Recursive `len` of one node: 1 for a Terminal node, otherwise the sum
      over the children. */
  method NodeLen(n: Node) returns (c: nat)
    ensures c == |TerminalPaths(n)|
    decreases n
  {
    match n
    case Terminal =>
      c := 1;
    case Internal(m) =>
      c := 0;
      var todo := m.Keys;
      while todo != {}
        invariant todo <= m.Keys
        invariant c == |PathsVia(m, m.Keys - todo)|
        decreases |todo|
      {
        var k :| k in todo;
        var sub := NodeLen(m[k]);
        PathsViaAdd(m, m.Keys - todo, k);
        assert m.Keys - (todo - {k}) == (m.Keys - todo) + {k};
        c := c + sub;
        todo := todo - {k};
      }
      assert m.Keys - todo == m.Keys;
      assert PathsVia(m, m.Keys) == TerminalPaths(n);
  }

  class SuffixTree {
    var root: Node

    /** `new` / `default`: an Internal root with no children. */
    constructor ()
      ensures root == Empty
    {
      root := Empty;
    }

    /** `len`: the number of Terminal nodes. */
    method Len() returns (n: nat)
      ensures n == |TerminalPaths(root)|
    {
      n := NodeLen(root);
    }

    /** `is_empty`: whether the root itself is Terminal, i.e. whether the
        tree covers every domain (not whether it has no entries). */
    function IsEmpty(): (b: bool)
      reads this
      ensures b <==> forall q: seq<string> :: MatchLabels(root, q)
    {
      CoversEverything(root);
      root.Terminal?
    }

    /** `len() == 0`, the answer `is_empty` is evidently meant to give: the
        tree has no entries, so it matches nothing. */
    method HasNoEntries() returns (b: bool)
      ensures b <==> |TerminalPaths(root)| == 0
      ensures b <==> forall q: seq<string> :: !MatchLabels(root, q)
    {
      var n := Len();
      NoEntriesMatchesNothing(root);
      b := n == 0;
    }

    /** `insert`, walking a cursor down the tree and updating it in place. */
    method Insert(domain: string)
      modifies this
      ensures root == InsertLabels(old(root), Split(domain))
    {
      var parts := Split(domain);
      ghost var target := InsertLabels(root, parts);
      var path: seq<Frame> := [];
      var s := root;
      var i := 0;
      while i < |parts|
        invariant 0 <= i <= |parts|
        invariant root == Plug(path, s)
        invariant target == Plug(path, InsertLabels(s, parts[i..]))
      {
        var part := parts[i];
        match s
        case Terminal =>
          return;
        case Internal(m) =>
          var m' := if part in m then m else m[part := Empty];
          var next := m'[part];
          InsertStep(path, m, parts[i..]);
          assert parts[i..][1..] == parts[i + 1..];
          path := path + [Frame(m', part)];
          s := next;
          root := Plug(path, s);
          i := i + 1;
      }
      root := Plug(path, Terminal);
    }

    /** `matches`, reassigning a cursor once per label. */
    method Matches(domain: string) returns (b: bool)
      ensures b == MatchLabels(root, Split(domain))
    {
      var parts := Split(domain);
      var s := root;
      for i := 0 to |parts|
        invariant MatchLabels(root, parts) == MatchLabels(s, parts[i..])
      {
        assert parts[i..][1..] == parts[i + 1..];
        match s
        case Internal(m) =>
          if parts[i] in m {
            s := m[parts[i]];
          } else {
            return false;
          }
        case Terminal =>
      }
      b := s.Terminal?;
    }
  }

  /** `FromIterator<String>`: a new tree with every domain inserted in turn. */
  method FromIter(domains: seq<string>) returns (t: SuffixTree)
    ensures fresh(t)
    ensures t.root == Build(domains)
  {
    t := new SuffixTree();
    for i := 0 to |domains|
      invariant t.root == Build(domains[..i])
    {
      assert domains[..i + 1][..i] == domains[..i];
      t.Insert(domains[i]);
    }
    assert domains[..|domains|] == domains;
  }
}
