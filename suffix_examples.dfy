/** The unit tests of src/suffix.rs, stated about the tree the inserted
    domains build.  Each scenario takes its domains as parameters fixed by
    the precondition, so that the verifier reasons about the labels instead
    of evaluating the splitting of the literals symbolically. */
module SuffixExamples {
  import opened Suffix

  /** A tree holding one domain matches the domain and its subdomains and
      nothing else. */
  lemma SingleDomain(d: string, q: string)
    ensures MatchLabels(Build([d]), Split(q)) <==> IsSubdomainOrSelf(q, d)
  {
    BuildMatchesDomain([d], q);
  }

  /** `empty`: a new tree matches nothing. */
  lemma EmptyTree(q: string)
    ensures !MatchLabels(Build([]), Split(q))
  {
    EmptyMatchesNothing(Split(q));
  }

  /** `exact`, `subdomain` and `lots_of_subdomains`. */
  lemma ExactAndSubdomains(d: string, q1: string, q2: string)
    requires d == "github.com" && q1 == "www.github.com" && q2 == "a.b.c.d.e.f.g.h.i.github.com"
    ensures MatchLabels(Build([d]), Split(d))
    ensures MatchLabels(Build([d]), Split(q1))
    ensures MatchLabels(Build([d]), Split(q2))
  {
    SingleDomain(d, d);
    SingleDomain(d, q1);
    assert q1[3..] == "." + d;
    SingleDomain(d, q2);
    assert q2[17..] == "." + d;
  }

  /** `not_tld`, `not_other_domain` and `not_other_subdomain`. */
  lemma NotMatched(d: string, other: string, q1: string, q2: string, q3: string)
    requires d == "github.com" && q1 == "com" && q2 == "example.com"
    requires other == "foo.example.com" && q3 == "bar.example.com"
    ensures !MatchLabels(Build([d]), Split(q1))
    ensures !MatchLabels(Build([d]), Split(q2))
    ensures !MatchLabels(Build([other]), Split(q3))
  {
    SingleDomain(d, q1);
    SingleDomain(d, q2);
    SingleDomain(other, q3);
  }

  /** `is_empty` as written answers false for every tree built by
      inserting, and in particular for a new tree, which has no entries. */
  lemma IsEmptyOnBuilt(domains: seq<string>)
    ensures !Build(domains).Terminal?
    ensures |TerminalPaths(Build([]))| == 0 && !Build([]).Terminal?
  {
    BuildRootInternal(domains);
    assert TerminalPaths(Empty) == {};
  }

  /** `len_0` and `len_1`: a new tree has no entries; one domain is one. */
  lemma LenOneDomain(d: string)
    ensures |TerminalPaths(Build([]))| == 0
    ensures |TerminalPaths(Build([d]))| == 1
  {
    assert TerminalPaths(Empty) == {};
    InsertTerminalPaths(Empty, Split(d));
    assert Pruned({}, Split(d)) == {};
  }

  /** `q` is neither `d` nor a subdomain of it: the two differ, and where
      the dot before `d` would sit in `q` (at offset `j` past it) the texts
      disagree. */
  lemma NotSubdomain(q: string, d: string, j: nat)
    requires q != d
    requires |q| > |d| ==> j <= |d| && q[|q| - |d| - 1 + j] != ("." + d)[j]
    ensures !IsSubdomainOrSelf(q, d)
  {
    if |q| > |d| {
      assert q[|q| - |d| - 1..][j] == q[|q| - |d| - 1 + j];
    }
  }

  /** No registered entry lies at or below a path that no registered
      domain is covered by. */
  lemma NothingBelow(ds: seq<string>, d: string)
    requires forall i :: 0 <= i < |ds| ==> !IsSubdomainOrSelf(ds[i], d)
    ensures forall t :: t in TerminalPaths(Build(ds)) ==> !IsPrefix(Split(d), t)
  {
    BuildTerminalPaths(ds);
    forall t | t in TerminalPaths(Build(ds)) ensures !IsPrefix(Split(d), t) {
      assert t in Registered(ds);
      var i :| 0 <= i < |ds| && t == Split(ds[i]);
      SuffixLabels(d, ds[i]);
    }
  }

  lemma PrunedNothing(ps: set<seq<string>>, p: seq<string>)
    requires forall t :: t in ps ==> !IsPrefix(p, t)
    ensures Pruned(ps, p) == ps && p !in ps
  {
    assert IsPrefix(p, p);
  }

  /** A domain no registered domain covers is not matched. */
  lemma NotCovered(ds: seq<string>, d: string)
    requires forall i :: 0 <= i < |ds| ==> !IsSubdomainOrSelf(d, ds[i])
    ensures !MatchLabels(Build(ds), Split(d))
  {
    BuildMatchesDomain(ds, d);
  }

  lemma BuildAppend(ds: seq<string>, d: string)
    ensures Build(ds + [d]) == InsertLabels(Build(ds), Split(d))
  {
    assert (ds + [d])[..|ds|] == ds;
  }

  /** `d` neither covers nor is covered by any of `ds`. */
  predicate Unrelated(ds: seq<string>, d: string) {
    forall i :: 0 <= i < |ds| ==> !IsSubdomainOrSelf(d, ds[i]) && !IsSubdomainOrSelf(ds[i], d)
  }

  /** Inserting a domain unrelated to every registered entry adds exactly
      one entry. */
  lemma LenGrows(ds: seq<string>, d: string)
    requires Unrelated(ds, d)
    ensures |TerminalPaths(Build(ds + [d]))| == |TerminalPaths(Build(ds))| + 1
  {
    BuildAppend(ds, d);
    NotCovered(ds, d);
    NothingBelow(ds, d);
    PrunedNothing(TerminalPaths(Build(ds)), Split(d));
    InsertTerminalPaths(Build(ds), Split(d));
  }

  /** Inserting a domain that an entry already covers changes nothing. */
  lemma LenCovered(ds: seq<string>, i: nat, d: string)
    requires i < |ds| && IsSubdomainOrSelf(d, ds[i])
    ensures Build(ds + [d]) == Build(ds)
  {
    BuildAppend(ds, d);
    BuildMatchesDomain(ds, d);
    InsertUnchanged(Build(ds), Split(d));
  }

  /** Inserting a domain that covers every registered entry leaves one
      entry. */
  lemma LenCovers(ds: seq<string>, d: string)
    requires forall i :: 0 <= i < |ds| ==> IsSubdomainOrSelf(ds[i], d) && ds[i] != d
    ensures |TerminalPaths(Build(ds + [d]))| == 1
  {
    var n, p := Build(ds), Split(d);
    BuildAppend(ds, d);
    BuildMatchesDomain(ds, d);
    InsertTerminalPaths(n, p);
    BuildTerminalPaths(ds);
    forall t | t in TerminalPaths(n) ensures IsPrefix(p, t) {
      assert t in Registered(ds);
      var i :| 0 <= i < |ds| && t == Split(ds[i]);
      SuffixLabels(d, ds[i]);
    }
    assert Pruned(TerminalPaths(n), p) == {};
  }

  /** `len_2`: two unrelated domains are two entries. */
  lemma LenTwo(b: string, c: string)
    requires b == "github.com" && c == "example.com"
    ensures |TerminalPaths(Build([b, c]))| == 2
  {
    LenOneDomain(b);
    NotSubdomain(c, b, 0);
    NotSubdomain(b, c, 0);
    LenGrows([b], c);
    assert [b] + [c] == [b, c];
  }

  /** `len_3`: a subdomain inserted before its parent is replaced by it, one
      inserted after its parent is ignored. */
  lemma LenThree(a: string, b: string, c: string, e: string, f: string)
    requires a == "www.github.com" && b == "github.com" && c == "example.com"
    requires e == "www.example.com" && f == "foobar.com"
    ensures |TerminalPaths(Build([a, b, c, e, f]))| == 3
  {
    LenThreeFirst(a, b, c);
    assert e[3..] == "." + c;
    LenCovered([a, b, c], 2, e);
    assert [a, b, c] + [e] == [a, b, c, e];
    LenThreeLast(a, b, c, e, f);
  }

  lemma LenThreeFirst(a: string, b: string, c: string)
    requires a == "www.github.com" && b == "github.com" && c == "example.com"
    ensures |TerminalPaths(Build([a, b, c]))| == 2
  {
    assert a[3..] == "." + b;
    LenCovers([a], b);
    assert [a] + [b] == [a, b];
    ExampleUnrelated(a, b, c);
    LenGrows([a, b], c);
    assert [a, b] + [c] == [a, b, c];
  }

  lemma ExampleUnrelated(a: string, b: string, c: string)
    requires a == "www.github.com" && b == "github.com" && c == "example.com"
    ensures Unrelated([a, b], c)
  {
    NotSubdomain(c, a, 0);
    NotSubdomain(a, c, 0);
    NotSubdomain(c, b, 0);
    NotSubdomain(b, c, 0);
  }

  lemma LenThreeLast(a: string, b: string, c: string, e: string, f: string)
    requires a == "www.github.com" && b == "github.com" && c == "example.com"
    requires e == "www.example.com" && f == "foobar.com"
    requires |TerminalPaths(Build([a, b, c, e]))| == 2
    ensures |TerminalPaths(Build([a, b, c, e, f]))| == 3
  {
    FoobarUnrelated(a, b, c, e, f);
    LenGrows([a, b, c, e], f);
    assert [a, b, c, e] + [f] == [a, b, c, e, f];
  }

  lemma FoobarUnrelated(a: string, b: string, c: string, e: string, f: string)
    requires a == "www.github.com" && b == "github.com" && c == "example.com"
    requires e == "www.example.com" && f == "foobar.com"
    ensures Unrelated([a, b, c, e], f)
  {
    NotSubdomain(f, a, 0);
    NotSubdomain(a, f, 1);
    NotSubdomain(f, b, 0);
    NotSubdomain(b, f, 0);
    NotSubdomain(f, c, 0);
    NotSubdomain(c, f, 0);
    NotSubdomain(f, e, 0);
    NotSubdomain(e, f, 0);
  }
}
