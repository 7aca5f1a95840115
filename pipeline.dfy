/** The two stages of the program that hold logic: the match stage, which
    reads one decoded-packet line at a time, extracts the hostnames and
    sends an alert line for every name the indicator tree matches; and the
    hotspot stage, which rotates the access point's passphrase every time
    it is triggered and announces each new one.

    Channels are values here.  A sink records the lines its receiver has
    taken and the number of sends attempted so far, and `accepts` tells
    whether the receiver takes the n-th attempt; an input stream is the
    sequence of items it yields before it closes. */
module Pipeline {
  import opened Errors
  import opened Suffix
  import opened Json
  import opened Ioc
  import opened Hostapd

  // ------------------------------------------------------------------
  // Debug quoting
  // ------------------------------------------------------------------

  /** The escape of one character inside a quoted string. */
  function EscapeChar(c: char): string {
    if c == '"' then "\\\""
    else if c == '\\' then "\\\\"
    else if c == '\n' then "\\n"
    else if c == '\r' then "\\r"
    else if c == '\t' then "\\t"
    else if c == '\0' then "\\0"
    else [c]
  }

  function Escape(s: string): string
  {
    if s == [] then [] else EscapeChar(s[0]) + Escape(s[1..])
  }

  /** A string with nothing to escape prints as itself. */
  lemma {:induction false} EscapePlain(s: string)
    requires forall i :: 0 <= i < |s| ==> s[i] !in "\"\\\n\r\t\0"
    ensures Escape(s) == s
    decreases |s|
  {
    if s != [] {
      EscapePlain(s[1..]);
      assert [s[0]] + s[1..] == s;
    }
  }

  /** A string as `{:?}` prints it: escaped and in double quotes. */
  function DebugQuote(s: string): (r: string)
    ensures |r| >= 2 && r[0] == '"' && r[|r| - 1] == '"'
  {
    "\"" + Escape(s) + "\""
  }

  /** Reading an escaped string back; `None` for a dangling or unknown
      escape. */
  function Unescape(t: string): Option<string>
  {
    if t == [] then Some([])
    else if t[0] != '\\' then
      match Unescape(t[1..])
      case Some(rest) => Some([t[0]] + rest)
      case None => None
    else if |t| < 2 then None
    else
      var c :=
        if t[1] == '"' then Some('"')
        else if t[1] == '\\' then Some('\\')
        else if t[1] == 'n' then Some('\n')
        else if t[1] == 'r' then Some('\r')
        else if t[1] == 't' then Some('\t')
        else if t[1] == '0' then Some('\0')
        else None;
      match (c, Unescape(t[2..]))
      case (Some(x), Some(rest)) => Some([x] + rest)
      case _ => None
  }

  lemma UnescapeChar(c: char, rest: string, r: string)
    requires Unescape(rest) == Some(r)
    ensures Unescape(EscapeChar(c) + rest) == Some([c] + r)
  {
    var t := EscapeChar(c) + rest;
    if |EscapeChar(c)| == 1 {
      assert t[0] == c && t[1..] == rest;
    } else {
      assert t[0] == '\\' && t[2..] == rest;
    }
  }

  lemma {:induction false} UnescapeEscape(s: string)
    ensures Unescape(Escape(s)) == Some(s)
    decreases |s|
  {
    if s != [] {
      UnescapeEscape(s[1..]);
      UnescapeChar(s[0], Escape(s[1..]), s[1..]);
      assert [s[0]] + s[1..] == s;
    }
  }

  /** Distinct names print distinctly. */
  lemma DebugQuoteInjective(a: string, b: string)
    requires DebugQuote(a) == DebugQuote(b)
    ensures a == b
  {
    var qa, qb := DebugQuote(a), DebugQuote(b);
    assert Escape(a) == qa[1..|qa| - 1];
    assert Escape(b) == qb[1..|qb| - 1];
    UnescapeEscape(a);
    UnescapeEscape(b);
  }

  // ------------------------------------------------------------------
  // Sending
  // ------------------------------------------------------------------

  datatype Sink = Sink(sent: seq<string>, attempts: nat, accepts: nat -> bool)

  /** `send`: one attempt to hand `value` to the receiver; a refused
      attempt becomes the error "sink error". */
  function Send(sink: Sink, value: string): (r: (Sink, Result<()>))
    ensures r.0.accepts == sink.accepts && r.0.attempts == sink.attempts + 1
    ensures r.1.Ok? <==> sink.accepts(sink.attempts)
    ensures r.1.Ok? ==> r.0.sent == sink.sent + [value]
    ensures r.1.Err? ==> r.0.sent == sink.sent && r.1.error == SinkError
  {
    if sink.accepts(sink.attempts) then
      (sink.(sent := sink.sent + [value], attempts := sink.attempts + 1), Ok(()))
    else
      (sink.(attempts := sink.attempts + 1), Err(SinkError))
  }

  /** The sink after sending `lines` in order, every result dropped. */
  function Deliver(sink: Sink, lines: seq<string>): (r: Sink)
    ensures r.accepts == sink.accepts
    ensures r.attempts == sink.attempts + |lines|
  {
    if lines == [] then sink
    else Send(Deliver(sink, lines[..|lines| - 1]), lines[|lines| - 1]).0
  }

  /** What a receiver that takes every attempt ends up with: every line,
      in order. */
  lemma {:induction false} DeliverAllAccepted(sink: Sink, lines: seq<string>)
    requires forall k :: sink.attempts <= k < sink.attempts + |lines| ==> sink.accepts(k)
    ensures Deliver(sink, lines).sent == sink.sent + lines
    decreases |lines|
  {
    if lines != [] {
      var init := lines[..|lines| - 1];
      DeliverAllAccepted(sink, init);
      assert init + [lines[|lines| - 1]] == lines;
    }
  }

  /** `a` is `b` with some elements left out, the rest in their order. */
  predicate Subsequence(a: seq<string>, b: seq<string>)
    decreases |b|
  {
    if b == [] then a == []
    else
      Subsequence(a, b[..|b| - 1])
      || (a != [] && a[|a| - 1] == b[|b| - 1] && Subsequence(a[..|a| - 1], b[..|b| - 1]))
  }

  /** A subsequence is never longer, and holds nothing else. */
  lemma {:induction false} SubsequenceBounds(a: seq<string>, b: seq<string>)
    requires Subsequence(a, b)
    ensures |a| <= |b|
    ensures forall x :: x in a ==> x in b
    decreases |b|
  {
    if b != [] {
      var b' := b[..|b| - 1];
      if Subsequence(a, b') {
        SubsequenceBounds(a, b');
      } else {
        var a' := a[..|a| - 1];
        SubsequenceBounds(a', b');
        assert a == a' + [b[|b| - 1]];
        assert b == b' + [b[|b| - 1]];
      }
    }
  }

  /** Whatever the receiver takes, it takes after what it held before:
      some of the lines sent, in the order sent. */
  lemma {:induction false} DeliverSubsequence(sink: Sink, lines: seq<string>)
    ensures sink.sent <= Deliver(sink, lines).sent
    ensures Subsequence(Deliver(sink, lines).sent[|sink.sent|..], lines)
    ensures |Deliver(sink, lines).sent| <= |sink.sent| + |lines|
    ensures forall x :: x in Deliver(sink, lines).sent ==> x in sink.sent || x in lines
    decreases |lines|
  {
    var after := Deliver(sink, lines).sent;
    if lines == [] {
      assert after[|sink.sent|..] == [];
    } else {
      var init := lines[..|lines| - 1];
      DeliverSubsequence(sink, init);
      var before := Deliver(sink, init).sent;
      var taken := before[|sink.sent|..];
      if after == before {
        assert Subsequence(after[|sink.sent|..], lines);
      } else {
        assert after == before + [lines[|lines| - 1]];
        assert after[|sink.sent|..] == taken + [lines[|lines| - 1]];
        assert (taken + [lines[|lines| - 1]])[..|taken|] == taken;
      }
      SubsequenceBounds(after[|sink.sent|..], lines);
      assert after == sink.sent + after[|sink.sent|..];
    }
  }

  /** The receiver cannot take two lines in the reverse of the order they
      were sent. */
  lemma NotReversed(x: string, y: string)
    requires x != y
    ensures !Subsequence([y, x], [x, y])
  {
    assert [x, y][..1] == [x];
    assert [y, x][..1] == [y];
    assert [x][..0] == [];
    assert !Subsequence([y, x], []);
    assert !Subsequence([y], []);
    assert !Subsequence([y, x], [x]);
  }

  lemma {:induction false} DeliverConcat(sink: Sink, a: seq<string>, b: seq<string>)
    ensures Deliver(sink, a + b) == Deliver(Deliver(sink, a), b)
    decreases |b|
  {
    if b == [] {
      assert a + b == a;
    } else {
      assert (a + b)[..|a + b| - 1] == a + b[..|b| - 1];
      DeliverConcat(sink, a, b[..|b| - 1]);
    }
  }

  // ------------------------------------------------------------------
  // The match stage
  // ------------------------------------------------------------------

  /** The alert for a detected name. */
  function AlertLine(src: Source, name: string): string {
    "[!] detected(" + (AsStr(src) + ("): " + DebugQuote(name)))
  }

  /** An alert identifies both the traffic and the name it reports. */
  lemma AlertLineInjective(s1: Source, n1: string, s2: Source, n2: string)
    requires AlertLine(s1, n1) == AlertLine(s2, n2)
    ensures s1 == s2 && n1 == n2
  {
    var a1, a2 := AsStr(s1), AsStr(s2);
    var q1, q2 := DebugQuote(n1), DebugQuote(n2);
    var r1, r2 := "): " + q1, "): " + q2;
    ConcatCancel("[!] detected(", a1 + r1, "[!] detected(", a2 + r2);
    // The tag is three or four letters; the character after it tells which.
    assert (a1 + r1)[3] == if |a1| == 3 then ')' else 'p';
    assert (a2 + r2)[3] == if |a2| == 3 then ')' else 'p';
    ConcatCancel(a1, r1, a2, r2);
    AsStrInjective(s1, s2);
    ConcatCancel("): ", q1, "): ", q2);
    DebugQuoteInjective(n1, n2);
  }

  /** Equal concatenations with equally long fronts have equal parts. */
  lemma ConcatCancel(a1: string, r1: string, a2: string, r2: string)
    requires a1 + r1 == a2 + r2 && |a1| == |a2|
    ensures a1 == a2 && r1 == r2
  {
    assert a1 == (a1 + r1)[..|a1|];
    assert a2 == (a2 + r2)[..|a2|];
    assert r1 == (a1 + r1)[|a1|..];
    assert r2 == (a2 + r2)[|a2|..];
  }

  /** The names the tree matches, in extraction order. */
  function Detected(names: seq<Name>, root: Node): (r: seq<Name>)
    ensures |r| <= |names|
  {
    if names == [] then []
    else
      var init, last := names[..|names| - 1], names[|names| - 1];
      Detected(init, root) + (if MatchLabels(root, Split(last.1)) then [last] else [])
  }

  /** A name is detected exactly when it was extracted and the tree
      matches it. */
  lemma {:induction false} DetectedMembers(names: seq<Name>, root: Node, x: Name)
    ensures x in Detected(names, root) <==> x in names && MatchLabels(root, Split(x.1))
    decreases |names|
  {
    if names != [] {
      var init, last := names[..|names| - 1], names[|names| - 1];
      DetectedMembers(init, root, x);
      assert names == init + [last];
    }
  }

  /** Detection keeps the order of extraction: it distributes over
      concatenation. */
  lemma {:induction false} DetectedConcat(a: seq<Name>, b: seq<Name>, root: Node)
    ensures Detected(a + b, root) == Detected(a, root) + Detected(b, root)
    decreases |b|
  {
    if b == [] {
      assert a + b == a;
    } else {
      var init, last := b[..|b| - 1], b[|b| - 1];
      assert (a + b)[..|a + b| - 1] == a + init;
      assert (a + b)[|a + b| - 1] == last;
      DetectedSnoc(a + b, root);
      DetectedSnoc(b, root);
      DetectedConcat(a, init, root);
      var x := if MatchLabels(root, Split(last.1)) then [last] else [];
      assert (Detected(a, root) + Detected(init, root)) + x == Detected(a, root) + (Detected(init, root) + x);
    }
  }

  lemma DetectedSnoc(names: seq<Name>, root: Node)
    requires names != []
    ensures var last := names[|names| - 1];
      Detected(names, root)
      == Detected(names[..|names| - 1], root) + (if MatchLabels(root, Split(last.1)) then [last] else [])
  {
  }

  function AlertLines(ds: seq<Name>): (r: seq<string>)
    ensures |r| == |ds|
    ensures forall i :: 0 <= i < |ds| ==> r[i] == AlertLine(ds[i].0, ds[i].1)
  {
    seq(|ds|, i requires 0 <= i < |ds| => AlertLine(ds[i].0, ds[i].1))
  }

  /** The alerts `process` sends for one line: none when the line does
      not decode, otherwise one per matched name, in order. */
  function Alerts(line: string, decode: Decoder, root: Node): seq<string> {
    match Parse(line, decode)
    case Ok(pkt) => AlertLines(Detected(PktNames(pkt), root))
    case Err(_) => []
  }

  /** An alert is sent for a decoded name exactly when the tree matches
      it, and each alert reports that name and its traffic. */
  lemma AlertsSpec(line: string, decode: Decoder, root: Node)
    ensures decode(line).None? ==> Alerts(line, decode, root) == []
    ensures decode(line).Some? ==>
      forall src, name ::
        AlertLine(src, name) in Alerts(line, decode, root)
        <==> (src, name) in PktNames(decode(line).value) && MatchLabels(root, Split(name))
  {
    if decode(line).Some? {
      var names := PktNames(decode(line).value);
      var ds := Detected(names, root);
      forall src, name
        ensures AlertLine(src, name) in AlertLines(ds)
            <==> (src, name) in names && MatchLabels(root, Split(name))
      {
        DetectedMembers(names, root, (src, name));
        if AlertLine(src, name) in AlertLines(ds) {
          var i :| 0 <= i < |ds| && AlertLines(ds)[i] == AlertLine(src, name);
          AlertLineInjective(ds[i].0, ds[i].1, src, name);
        }
        if (src, name) in ds {
          var i :| 0 <= i < |ds| && ds[i] == (src, name);
          assert AlertLines(ds)[i] == AlertLine(src, name);
        }
      }
    }
  }

  lemma AlertLinesSnoc(ds: seq<Name>, x: Name)
    ensures AlertLines(ds + [x]) == AlertLines(ds) + [AlertLine(x.0, x.1)]
  {
  }

  /** One iteration of the loop in `process`. */
  lemma ProcessStep(sink: Sink, names: seq<Name>, i: nat, root: Node)
    requires i < |names|
    ensures var before := Deliver(sink, AlertLines(Detected(names[..i], root)));
      Deliver(sink, AlertLines(Detected(names[..i + 1], root)))
      == if MatchLabels(root, Split(names[i].1)) then Send(before, AlertLine(names[i].0, names[i].1)).0
         else before
  {
    assert names[..i + 1][..i] == names[..i];
    DetectedSnoc(names[..i + 1], root);
    var ds := Detected(names[..i], root);
    if MatchLabels(root, Split(names[i].1)) {
      AlertLinesSnoc(ds, names[i]);
      var lines := AlertLines(ds + [names[i]]);
      assert lines[..|lines| - 1] == AlertLines(ds);
    } else {
      assert ds + [] == ds;
    }
  }

  /** `process`: decode one line, and send an alert for every extracted
      name the tree matches; a line that does not decode and a refused
      send are both dropped, so the stage never fails. */
  method Process(line: string, iocs: SuffixTree, decode: Decoder, sink: Sink) returns (sink': Sink)
    ensures sink' == Deliver(sink, Alerts(line, decode, iocs.root))
  {
    sink' := sink;
    var parsed := Parse(line, decode);
    if parsed.Ok? {
      var names := PktNames(parsed.value);
      for i := 0 to |names|
        invariant sink' == Deliver(sink, AlertLines(Detected(names[..i], iocs.root)))
      {
        var (src, name) := names[i];
        var found := iocs.Matches(name);
        ProcessStep(sink, names, i, iocs.root);
        if found {
          var (next, _) := Send(sink', AlertLine(src, name));
          sink' := next;
        }
      }
      assert names[..|names|] == names;
    }
  }

  /** The alerts for a whole input, line after line. */
  function StreamAlerts(lines: seq<string>, decode: Decoder, root: Node): seq<string> {
    if lines == [] then []
    else StreamAlerts(lines[..|lines| - 1], decode, root) + Alerts(lines[|lines| - 1], decode, root)
  }

  function LoadFailure(path: string): string {
    "Failed to load iocs from " + DebugQuote(path)
  }

  /** `stream`: load the indicators from `path` (the read's outcome is
      `file`), then process every input line in order; a load failure is
      returned, with context, before any line is read. */
  method Stream(rx: seq<string>, sink: Sink, path: string, file: Result<seq<bv8>>,
                parse: RecordParser, decode: Decoder)
    returns (sink': Sink, r: Result<()>)
    ensures r.Err? <==> LoadResult(file, parse).Err?
    ensures r.Err? ==> sink' == sink && r.error == Context(LoadFailure(path), LoadResult(file, parse).error)
    ensures r.Ok? ==> sink' == Deliver(sink, StreamAlerts(rx, decode, LoadResult(file, parse).value))
  {
    var loaded := Load(file, parse);
    var checked := WithContext(loaded, LoadFailure(path));
    if checked.Err? {
      return sink, checked.PropagateFailure();
    }
    var iocs := checked.value;
    ghost var root := iocs.root;
    sink' := sink;
    for i := 0 to |rx|
      invariant iocs.root == root
      invariant sink' == Deliver(sink, StreamAlerts(rx[..i], decode, iocs.root))
    {
      assert rx[..i + 1][..i] == rx[..i];
      DeliverConcat(sink, StreamAlerts(rx[..i], decode, iocs.root), Alerts(rx[i], decode, iocs.root));
      sink' := Process(rx[i], iocs, decode, sink');
    }
    assert rx[..|rx|] == rx;
    r := Ok(());
  }

  // ------------------------------------------------------------------
  // The hotspot stage
  // ------------------------------------------------------------------

  const INTERFACE: string := "wlan1"
  const SSID: string := "Starbucks WiFi"
  const WRITE_FAILURE: string := "Failed to write hostapd config"

  /** The network name as `{:?}` prints it. */
  const QUOTED_SSID: string := "\"Starbucks WiFi\""

  /** The network name has nothing to escape, so `{:?}` only adds the
      quotes: `DebugQuote(SSID)` is `QUOTED_SSID`.  (Stated for any string
      equal to the name, which keeps the verifier from evaluating the quoting
      of the literal symbolically.) */
  lemma QuotedSsid(ssid: string)
    requires ssid == SSID
    ensures Escape(ssid) == ssid
    ensures DebugQuote(ssid) == QUOTED_SSID
  {
    EscapePlain(ssid);
    QuotePlain(ssid);
    QuotedLiteral(ssid);
  }

  lemma QuotedLiteral(ssid: string)
    requires ssid == SSID
    ensures "\"" + ssid + "\"" == QUOTED_SSID
  {
  }

  lemma QuotePlain(s: string)
    requires Escape(s) == s
    ensures DebugQuote(s) == "\"" + s + "\""
  {
  }

  /** The line announcing a new passphrase. */
  function Announcement(pw: string): string {
    "[+] " + QUOTED_SSID + " (pw: " + pw + ")"
  }

  /** The announcement is the network name as `{:?}` prints it, followed
      by the passphrase. */
  lemma AnnouncementQuotes(ssid: string, pw: string)
    requires ssid == SSID
    ensures Announcement(pw) == "[+] " + DebugQuote(ssid) + " (pw: " + pw + ")"
  {
    QuotedSsid(ssid);
  }

  /** The outcomes of the stage's foreign calls, by round: the RNG's
      draws, how the n-th config write turns out and whether the n-th
      restart command could be run. */
  datatype Effects = Effects(rng: Rng, write: nat -> WriteOutcome, restarted: nat -> bool)

  /** Round `j` draws the passphrase from the RNG's draws 10j .. 10j + 9. */
  function RoundPassword(fx: Effects, j: nat): string {
    Password(fx.rng, PASSWORD_LEN * j)
  }

  /** The config file as round `j` writes it. */
  function RoundConfig(fx: Effects, j: nat): ConfigFile {
    Rendered(INTERFACE, SSID, RoundPassword(fx, j))
  }

  /** The config file after round `j`'s write, `before` being the file as
      the round found it. */
  function RoundFile(fx: Effects, j: nat, before: ConfigFile): ConfigFile {
    WriteConfig(before, fx.write(j), INTERFACE, SSID, RoundPassword(fx, j)).0
  }

  /** Round `j` gets through: its config write succeeds and its
      announcement is taken (it is the sink's j-th attempt of the stage). */
  predicate RoundOk(fx: Effects, sink: Sink, j: nat) {
    fx.write(j).Written? && sink.accepts(sink.attempts + j)
  }

  /** How many of the first `n` rounds get through before the first one
      that fails. */
  function Completed(fx: Effects, sink: Sink, n: nat): (c: nat)
    ensures c <= n
    ensures forall j :: 0 <= j < c ==> RoundOk(fx, sink, j)
    ensures c < n ==> !RoundOk(fx, sink, c)
  {
    if n == 0 then 0
    else
      var c := Completed(fx, sink, n - 1);
      if c == n - 1 && RoundOk(fx, sink, n - 1) then n else c
  }

  /** Once a round fails, later rounds do not count. */
  lemma {:induction false} CompletedStops(fx: Effects, sink: Sink, n: nat, m: nat)
    requires Completed(fx, sink, n) < n <= m
    ensures Completed(fx, sink, m) == Completed(fx, sink, n)
    decreases m - n
  {
    if m > n {
      CompletedStops(fx, sink, n, m - 1);
    }
  }

  /** Every round that gets through announces its own passphrase. */
  function Announcements(fx: Effects, c: nat): (r: seq<string>)
    ensures |r| == c
    ensures forall j :: 0 <= j < c ==> r[j] == Announcement(RoundPassword(fx, j))
  {
    seq(c, j requires 0 <= j < c => Announcement(RoundPassword(fx, j)))
  }

  /** The sink after the stage: the announcements of the rounds that got
      through, and one more attempt when the last round failed only at
      its announcement. */
  function SinkAfter(fx: Effects, sink: Sink, total: nat): Sink {
    var c := Completed(fx, sink, total);
    sink.(sent := sink.sent + Announcements(fx, c),
          attempts := sink.attempts + (if c < total && fx.write(c).Written? then c + 1 else c))
  }

  /** The config file after the stage: what the write of the round that
      failed left there, or else the last one written, if any. */
  function ConfigAfter(fx: Effects, sink: Sink, total: nat, config: ConfigFile): ConfigFile {
    var c := Completed(fx, sink, total);
    if c < total then RoundFile(fx, c, ConfigBefore(fx, config, c))
    else ConfigBefore(fx, config, c)
  }

  /** The sink and the config file as round `round` begins. */
  function SinkBefore(fx: Effects, sink: Sink, round: nat): Sink {
    sink.(sent := sink.sent + Announcements(fx, round), attempts := sink.attempts + round)
  }

  function ConfigBefore(fx: Effects, config: ConfigFile, round: nat): ConfigFile {
    if round == 0 then config else RoundConfig(fx, round - 1)
  }

  /** How the stage ends: Ok once every round got through, otherwise the
      error of the first round that failed. */
  function HotspotResult(fx: Effects, sink: Sink, total: nat): Result<()> {
    var c := Completed(fx, sink, total);
    if c == total then Ok(())
    else if !fx.write(c).Written? then Err(Context(WRITE_FAILURE, Io(WRITE_ERROR)))
    else Err(SinkError)
  }

  /** One round of `hotspot`: draw a passphrase, write the config with it,
      restart hostapd (a failure is ignored) and announce the passphrase.
      A failed write skips the rest of the round. */
  method Rotate(config: ConfigFile, sink: Sink, fx: Effects, round: nat)
    returns (config': ConfigFile, sink': Sink, r: Result<()>)
    ensures !fx.write(round).Written? ==>
      config' == RoundFile(fx, round, config) && sink' == sink
      && r == Err(Context(WRITE_FAILURE, Io(WRITE_ERROR)))
    ensures fx.write(round).Written? ==> config' == RoundConfig(fx, round)
    ensures fx.write(round).Written? ==> (sink', r) == Send(sink, Announcement(RoundPassword(fx, round)))
  {
    var pw := Pwgen(fx.rng, PASSWORD_LEN * round);
    var write := WriteConfig(config, fx.write(round), INTERFACE, SSID, pw);
    config' := write.0;
    if write.1.Err? {
      sink', r := sink, WithContext(write.1, WRITE_FAILURE);
      return;
    }
    var _ := Restart(fx.restarted(round));
    sink', r := Send(sink, Announcement(pw)).0, Send(sink, Announcement(pw)).1;
  }

  /** `hotspot`: rotate the passphrase, then wait for the next trigger;
      stop when the trigger stream closes.  A failed write or a refused
      announcement ends the stage with that error. */
  method Hotspot(triggers: seq<string>, sink: Sink, config: ConfigFile, fx: Effects)
    returns (sink': Sink, config': ConfigFile, r: Result<()>)
    ensures sink' == SinkAfter(fx, sink, |triggers| + 1)
    ensures config' == ConfigAfter(fx, sink, |triggers| + 1, config)
    ensures r == HotspotResult(fx, sink, |triggers| + 1)
  {
    sink', config' := sink, config;
    var round: nat := 0;
    while true
      invariant round <= |triggers|
      invariant Completed(fx, sink, round) == round
      invariant sink' == SinkBefore(fx, sink, round)
      invariant config' == ConfigBefore(fx, config, round)
      decreases |triggers| - round
    {
      var result;
      config', sink', result := Rotate(config', sink', fx, round);
      HotspotStep(fx, sink, config, round, |triggers| + 1, config', sink', result);
      if result.Err? {
        r := result;
        return;
      }
      if round == |triggers| {
        break;
      }
      round := round + 1;
    }
    r := Ok(());
  }

  /** What one round does to the stage's state: a failed round fixes the
      stage's outcome, a round that got through brings the next one to its
      start, and the last round that gets through ends the stage with Ok. */
  lemma {:induction false} HotspotStep(fx: Effects, sink: Sink, config: ConfigFile, round: nat, total: nat,
                                       config': ConfigFile, sink': Sink, result: Result<()>)
    requires round < total && Completed(fx, sink, round) == round
    requires !fx.write(round).Written? ==>
      && config' == RoundFile(fx, round, ConfigBefore(fx, config, round)) && sink' == SinkBefore(fx, sink, round)
      && result == Err(Context(WRITE_FAILURE, Io(WRITE_ERROR)))
    requires fx.write(round).Written? ==>
      && config' == RoundConfig(fx, round)
      && (sink', result) == Send(SinkBefore(fx, sink, round), Announcement(RoundPassword(fx, round)))
    ensures result.Err? ==>
      && sink' == SinkAfter(fx, sink, total) && config' == ConfigAfter(fx, sink, total, config)
      && result == HotspotResult(fx, sink, total)
    ensures result.Ok? ==>
      && Completed(fx, sink, round + 1) == round + 1
      && sink' == SinkBefore(fx, sink, round + 1) && config' == ConfigBefore(fx, config, round + 1)
    ensures result.Ok? && round + 1 == total ==>
      && sink' == SinkAfter(fx, sink, total) && config' == ConfigAfter(fx, sink, total, config)
      && HotspotResult(fx, sink, total) == Ok(())
  {
    if !fx.write(round).Written? {
      HotspotWriteFails(fx, sink, config, round, total);
    } else if result.Err? {
      HotspotSendFails(fx, sink, config, round, total);
    } else {
      HotspotRoundOk(fx, sink, round);
      if round + 1 == total {
        HotspotDone(fx, sink, config, round);
      }
    }
  }

  lemma {:induction false} HotspotStops(fx: Effects, sink: Sink, round: nat, total: nat)
    requires round < total && Completed(fx, sink, round) == round && !RoundOk(fx, sink, round)
    ensures Completed(fx, sink, total) == round
  {
    assert Completed(fx, sink, round + 1) == round;
    if round + 1 < total {
      CompletedStops(fx, sink, round + 1, total);
    }
  }

  lemma {:induction false} HotspotWriteFails(fx: Effects, sink: Sink, config: ConfigFile, round: nat, total: nat)
    requires round < total && Completed(fx, sink, round) == round && !fx.write(round).Written?
    ensures Completed(fx, sink, total) == round
    ensures SinkAfter(fx, sink, total) == SinkBefore(fx, sink, round)
    ensures ConfigAfter(fx, sink, total, config) == RoundFile(fx, round, ConfigBefore(fx, config, round))
    ensures HotspotResult(fx, sink, total) == Err(Context(WRITE_FAILURE, Io(WRITE_ERROR)))
  {
    HotspotStops(fx, sink, round, total);
  }

  lemma {:induction false} HotspotSendFails(fx: Effects, sink: Sink, config: ConfigFile, round: nat, total: nat)
    requires round < total && Completed(fx, sink, round) == round
    requires fx.write(round).Written? && !sink.accepts(sink.attempts + round)
    ensures Completed(fx, sink, total) == round
    ensures SinkAfter(fx, sink, total) == Send(SinkBefore(fx, sink, round), Announcement(RoundPassword(fx, round))).0
    ensures ConfigAfter(fx, sink, total, config) == RoundConfig(fx, round)
    ensures HotspotResult(fx, sink, total) == Err(SinkError)
  {
    HotspotStops(fx, sink, round, total);
    assert SinkBefore(fx, sink, round).sent + [] == SinkBefore(fx, sink, round).sent;
  }

  lemma {:induction false} HotspotRoundOk(fx: Effects, sink: Sink, round: nat)
    requires Completed(fx, sink, round) == round && RoundOk(fx, sink, round)
    ensures Completed(fx, sink, round + 1) == round + 1
    ensures Send(SinkBefore(fx, sink, round), Announcement(RoundPassword(fx, round))).0
         == SinkBefore(fx, sink, round + 1)
  {
    assert Announcements(fx, round) + [Announcement(RoundPassword(fx, round))] == Announcements(fx, round + 1);
  }

  lemma {:induction false} HotspotDone(fx: Effects, sink: Sink, config: ConfigFile, round: nat)
    requires Completed(fx, sink, round + 1) == round + 1
    ensures SinkAfter(fx, sink, round + 1) == SinkBefore(fx, sink, round + 1)
    ensures ConfigAfter(fx, sink, round + 1, config) == RoundConfig(fx, round)
    ensures HotspotResult(fx, sink, round + 1) == Ok(())
  {
  }

  /** With k triggers before the stream closes, and every write and every
      announcement going through, the stage announces k + 1 passphrases,
      each the one its round wrote to the config, leaves the last one in the
      config file and returns Ok.  With no trigger it announces once. */
  lemma HotspotAllThrough(fx: Effects, sink: Sink, config: ConfigFile, k: nat)
    requires forall j :: 0 <= j <= k ==> RoundOk(fx, sink, j)
    ensures var after := SinkAfter(fx, sink, k + 1);
      && after.sent == sink.sent + Announcements(fx, k + 1)
      && after.attempts == sink.attempts + k + 1
      && |after.sent| == |sink.sent| + k + 1
    ensures forall j :: 0 <= j <= k ==>
      SinkAfter(fx, sink, k + 1).sent[|sink.sent| + j] == Announcement(RoundConfig(fx, j).password)
    ensures ConfigAfter(fx, sink, k + 1, config) == RoundConfig(fx, k)
    ensures HotspotResult(fx, sink, k + 1) == Ok(())
  {
    CompletedAll(fx, sink, k + 1);
  }

  lemma {:induction false} CompletedAll(fx: Effects, sink: Sink, n: nat)
    requires forall j :: 0 <= j < n ==> RoundOk(fx, sink, j)
    ensures Completed(fx, sink, n) == n
  {
    if n > 0 {
      CompletedAll(fx, sink, n - 1);
    }
  }
}
