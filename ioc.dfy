/** Loading the stalkerware indicators of compromise into a suffix tree.
    The indicator file is a YAML list of records, decoded by a foreign
    parser; only the record's websites and command-and-control domains are
    inserted into the tree, in record order, websites first. */
module Ioc {
  import opened Errors
  import opened Suffix

  datatype C2 = C2(ips: seq<string>, domains: seq<string>)

  /** One indicator record: a stalkerware family and what identifies it. */
  datatype Indicator = Indicator(
    name: string,
    names: seq<string>,
    packages: seq<string>,
    certificates: seq<string>,
    websites: seq<string>,
    c2: C2)

  /** The foreign record parser: bytes of the indicator file to records, or
      an error. */
  type RecordParser = seq<bv8> -> Result<seq<Indicator>>

  /** The domains inserted for `list`, in insertion order: for each record
      its websites, then its c2 domains. */
  function IocDomains(list: seq<Indicator>): seq<string>
  {
    if list == [] then []
    else
      var last := list[|list| - 1];
      IocDomains(list[..|list| - 1]) + last.websites + last.c2.domains
  }

  /** All websites of all records, then all c2 domains of all records. */
  function AllWebsites(list: seq<Indicator>): seq<string>
  {
    if list == [] then [] else AllWebsites(list[..|list| - 1]) + list[|list| - 1].websites
  }

  function AllC2Domains(list: seq<Indicator>): seq<string>
  {
    if list == [] then [] else AllC2Domains(list[..|list| - 1]) + list[|list| - 1].c2.domains
  }

  /** The tree `parse_domain_iocs` returns for a buffer, or the parser's
      error. */
  function LoadedTree(buf: seq<bv8>, parse: RecordParser): (r: Result<Node>)
    ensures r.Err? <==> parse(buf).Err?
    ensures r.Err? ==> r.error == parse(buf).error
  {
    match parse(buf)
    case Ok(list) => Ok(Build(IocDomains(list)))
    case Err(e) => Err(e)
  }

  /** `parse_domain_iocs`: decode the records, then insert every website
      and every c2 domain of every record into a new tree. */
  method ParseDomainIocs(buf: seq<bv8>, parse: RecordParser) returns (r: Result<SuffixTree>)
    ensures r.Err? <==> parse(buf).Err?
    ensures r.Err? ==> r.error == parse(buf).error
    ensures r.Ok? ==> fresh(r.value) && Ok(r.value.root) == LoadedTree(buf, parse)
  {
    var tree := new SuffixTree();
    var list :- parse(buf);
    for i := 0 to |list|
      invariant tree.root == Build(IocDomains(list[..i]))
    {
      var item := list[i];
      IocDomainsSnoc(list, i);
      ghost var done := IocDomains(list[..i]);
      assert done + item.websites[..0] == done;
      for j := 0 to |item.websites|
        invariant tree.root == Build(done + item.websites[..j])
      {
        BuildSnoc(done, item.websites, j);
        tree.Insert(item.websites[j]);
      }
      assert item.websites[..|item.websites|] == item.websites;
      ghost var done' := done + item.websites;
      assert done' + item.c2.domains[..0] == done';
      for j := 0 to |item.c2.domains|
        invariant tree.root == Build(done' + item.c2.domains[..j])
      {
        BuildSnoc(done', item.c2.domains, j);
        tree.Insert(item.c2.domains[j]);
      }
      assert item.c2.domains[..|item.c2.domains|] == item.c2.domains;
    }
    assert list[..|list|] == list;
    return Ok(tree);
  }

  /** One more insertion extends the built tree. */
  lemma BuildSnoc(done: seq<string>, ds: seq<string>, j: nat)
    requires j < |ds|
    ensures Build(done + ds[..j + 1]) == InsertLabels(Build(done + ds[..j]), Split(ds[j]))
  {
    assert (done + ds[..j + 1])[..|done| + j] == done + ds[..j];
  }

  lemma IocDomainsSnoc(list: seq<Indicator>, i: nat)
    requires i < |list|
    ensures IocDomains(list[..i + 1]) == IocDomains(list[..i]) + list[i].websites + list[i].c2.domains
  {
    assert list[..i + 1][..i] == list[..i];
  }

  /** The tree `load` returns for the read's outcome, or the error. */
  function LoadResult(file: Result<seq<bv8>>, parse: RecordParser): (r: Result<Node>)
    ensures r.Err? <==> file.Err? || parse(file.value).Err?
    ensures file.Err? ==> r.error == file.error
    ensures file.Ok? ==> r == LoadedTree(file.value, parse)
  {
    match file
    case Err(e) => Err(e)
    case Ok(buf) => LoadedTree(buf, parse)
  }

  /** `load`: read the indicator file, then parse it.  The read is given as
      its outcome. */
  method Load(file: Result<seq<bv8>>, parse: RecordParser) returns (r: Result<SuffixTree>)
    ensures r.Err? <==> LoadResult(file, parse).Err?
    ensures r.Err? ==> r.error == LoadResult(file, parse).error
    ensures r.Ok? ==> fresh(r.value) && Ok(r.value.root) == LoadResult(file, parse)
  {
    var buf :- file;
    r := ParseDomainIocs(buf, parse);
  }

  /** Some record lists `d` as a website or as a c2 domain. */
  predicate Listed(list: seq<Indicator>, d: string) {
    exists i :: 0 <= i < |list| && (d in list[i].websites || d in list[i].c2.domains)
  }

  /** A domain is inserted exactly when some record lists it. */
  lemma {:induction false} InIocDomains(list: seq<Indicator>, d: string)
    ensures d in IocDomains(list) <==> Listed(list, d)
    decreases |list|
  {
    if list != [] {
      var init := list[..|list| - 1];
      InIocDomains(init, d);
      if Listed(init, d) {
        var i :| 0 <= i < |init| && (d in init[i].websites || d in init[i].c2.domains);
        assert list[i] == init[i];
      }
      if Listed(list, d) {
        var i :| 0 <= i < |list| && (d in list[i].websites || d in list[i].c2.domains);
        if i < |init| { assert init[i] == list[i]; }
      }
    }
  }

  /** The loaded tree matches a queried name exactly when it is a listed
      website or c2 domain, or a subdomain of one; ip addresses, family
      names, package names and certificates play no part. */
  lemma IocMatches(list: seq<Indicator>, query: string)
    ensures MatchLabels(Build(IocDomains(list)), Split(query))
        <==> exists d :: Listed(list, d) && IsSubdomainOrSelf(query, d)
  {
    var ds := IocDomains(list);
    BuildMatchesDomain(ds, query);
    if exists k :: 0 <= k < |ds| && IsSubdomainOrSelf(query, ds[k]) {
      var k :| 0 <= k < |ds| && IsSubdomainOrSelf(query, ds[k]);
      InIocDomains(list, ds[k]);
    }
    if exists d :: Listed(list, d) && IsSubdomainOrSelf(query, d) {
      var d :| Listed(list, d) && IsSubdomainOrSelf(query, d);
      InIocDomains(list, d);
      var k :| 0 <= k < |ds| && ds[k] == d;
    }
  }

  /** Every listed website and every listed c2 domain matches once loaded. */
  lemma IocListedDomainsMatch(list: seq<Indicator>, i: nat, d: string)
    requires i < |list| && (d in list[i].websites || d in list[i].c2.domains)
    ensures MatchLabels(Build(IocDomains(list)), Split(d))
  {
    IocMatches(list, d);
    assert Listed(list, d) && IsSubdomainOrSelf(d, d);
  }

  /** Only the websites and c2 domains of the records decide the tree:
      records that differ in anything else load to the same tree. */
  lemma {:induction false} IocIgnoresOtherFields(l1: seq<Indicator>, l2: seq<Indicator>)
    requires |l1| == |l2|
    requires forall i :: 0 <= i < |l1| ==>
      l1[i].websites == l2[i].websites && l1[i].c2.domains == l2[i].c2.domains
    ensures Build(IocDomains(l1)) == Build(IocDomains(l2))
  {
    IocDomainsAgree(l1, l2);
  }

  lemma {:induction false} IocDomainsAgree(l1: seq<Indicator>, l2: seq<Indicator>)
    requires |l1| == |l2|
    requires forall i :: 0 <= i < |l1| ==>
      l1[i].websites == l2[i].websites && l1[i].c2.domains == l2[i].c2.domains
    ensures IocDomains(l1) == IocDomains(l2)
    decreases |l1|
  {
    if l1 != [] {
      var n := |l1| - 1;
      IocDomainsAgree(l1[..n], l2[..n]);
    }
  }

  lemma {:induction false} IocDomainsMultiset(list: seq<Indicator>)
    ensures multiset(IocDomains(list)) == multiset(AllWebsites(list) + AllC2Domains(list))
    decreases |list|
  {
    if list != [] {
      IocDomainsMultiset(list[..|list| - 1]);
    }
  }

  /** The tree equals the one built from all websites of all records
      followed by all c2 domains of all records. */
  lemma IocTreeByField(list: seq<Indicator>)
    ensures Build(IocDomains(list)) == Build(AllWebsites(list) + AllC2Domains(list))
  {
    IocDomainsMultiset(list);
    BuildPermutation(IocDomains(list), AllWebsites(list) + AllC2Domains(list));
  }

  /** The record of the repository's own test, as its parser returns it. */
  function OwnSpy(): Indicator {
    Indicator(
      "OwnSpy",
      ["OwnSpy", "WebDetetive"],
      ["com.ownspy.android", "org.system.kernel"],
      ["CA5304E94F4BC97DA9D147E76858DBF70AB8B4E6", "14A071616D4BC37F08BE865D375101F4C963777A"],
      ["mobileinnova.net", "webdetetive.com.br"],
      C2([], ["6287970dd9.era3000.com", "user.ownspy.es"]))
  }

  /** Loading that record builds the same tree as collecting its four
      domains with `FromIterator`. */
  lemma OwnSpyTree()
    ensures Build(IocDomains([OwnSpy()]))
         == Build(["mobileinnova.net", "webdetetive.com.br", "6287970dd9.era3000.com", "user.ownspy.es"])
  {
    assert IocDomains([OwnSpy()])
        == ["mobileinnova.net", "webdetetive.com.br", "6287970dd9.era3000.com", "user.ownspy.es"];
  }
}
