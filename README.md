# spytrap-wifi: the suffix trie, hostname extraction and the two stages

spytrap-wifi runs a Wi-Fi access point and watches the traffic of the phones
connected to it for stalkerware. An external sniffer decodes the packets to
JSON lines. For each line the match stage extracts the hostnames that packet
carries: DNS questions, the TLS ClientHello server name and the HTTP host. It
checks each name against a suffix trie of known stalkerware domains and sends
an alert line for every hit. The indicator domains are every website and
every command-and-control domain of the indicator records. The hotspot stage
draws a fresh ten-letter passphrase and writes the hostapd configuration with
it. It then restarts hostapd and announces the new passphrase. It does this
once at start and again each time it is triggered.

The model has seven modules:

- `Errors`: the `anyhow`-style error with context, and `Option`/`Result`.
- `Suffix`: the trie, as the datatype `Node` (`Terminal | Internal(map)`).
  - The class `SuffixTree` holds the root. Its `Insert` and `Matches` walk a
    cursor down the tree with loops, as the source does.
  - The pure functions `InsertLabels`, `MatchLabels` and `Build` are the
    reference semantics that the loops are proved against.
  - The lemmas relate matching to the registered label sequences.
- `SuffixExamples`: the trie's unit tests, stated as lemmas over any domains
  equal to the test's literals.
- `Json`: the packet union, the per-layer name extraction, and `parse` over a
  decoder given as a parameter.
- `Ioc`: the indicator records, `parse_domain_iocs` and `load` over a record
  parser and a file-read outcome given as parameters.
- `Hostapd`: `pwgen` over an index-drawing RNG, the `mkconfig` template and
  `write_config`/`restart` given by their outcomes.
- `Pipeline`: `send`, `process`, `stream` and `hotspot`.
  - An output channel is a `Sink`: the lines taken, the number of send
    attempts, and which attempts the receiver takes.
  - An input channel is the sequence of items it yields before it closes.

## Model

| member | source | states |
|---|---|---|
| Errors.WithContext | src/main.rs:41-42 | `.context(msg)` keeps a success unchanged. It wraps a failure's cause in the message. |
| Suffix.Labels | src/suffix.rs:5 | `split('.')` always yields at least one label. |
| Suffix.Reverse | src/suffix.rs:6 | `v.reverse()`: the same elements, as many, in the opposite order. |
| Suffix.Split | src/suffix.rs:4-8 | The reversed label list is never empty, so `insert` always walks at least one label below the root. |
| Suffix.SplitJoin | src/suffix.rs:4-8 | No label holds a dot. Joining the labels back in reading order with dots gives the domain. |
| Suffix.SplitInjective | src/suffix.rs:4-8 | Distinct domains have distinct label sequences. |
| Suffix.SplitConcat | src/suffix.rs:4-8 | Prepending labels to a domain appends them after the domain's own labels, top-level domain first. |
| Suffix.SplitEmpty | src/suffix.rs:4-8 | The empty domain is one empty label, `[""]`. |
| Suffix.SuffixLabels | src/suffix.rs:4-8 | One label sequence leads another exactly when the second domain is the first or a subdomain of it. |
| Suffix.InsertLabels | src/suffix.rs:70-83 | The value-level `insert`: walk the labels, creating empty nodes for missing ones. It stops unchanged at a Terminal node and turns the node after the last label Terminal, dropping what lay below it. Its properties are the lemmas below. |
| Suffix.MatchLabels | src/suffix.rs:85-97 | The value-level `matches`: a missing label fails, labels left over once a Terminal node is reached are skipped, and the walk succeeds when it ends on a Terminal node. |
| Suffix.Build | src/suffix.rs:57-67 | The tree `FromIterator` builds: the domains inserted in order into a new tree. |
| Suffix.EmptyMatchesNothing | src/suffix.rs:39-45 | A new tree matches no label sequence. |
| Suffix.InsertMatches | src/suffix.rs:70-97 | After inserting `p`, a query matches exactly when `p` leads it or it matched before. |
| Suffix.InsertedDomainMatches | src/suffix.rs:70-97 | After `insert(d)`, `d` and every subdomain of `d` match, whatever the tree held before. |
| Suffix.BuildMatches | src/suffix.rs:57-67 | A tree built from domains matches a query exactly when some domain's label sequence leads the query. |
| Suffix.BuildMatchesDomain | src/suffix.rs:57-67 | The built tree matches a name exactly when the name is an inserted domain or a subdomain of one. |
| Suffix.BuildOrderIrrelevant | src/suffix.rs:57-67 | Two domain lists with the same members give the same match result for every query, whatever the insertion order. |
| Suffix.MatchIffTerminalPrefix | src/suffix.rs:85-97 | A query matches exactly when some prefix of its labels is the path to a Terminal node. |
| Suffix.MatchPath | src/suffix.rs:85-97 | A matching query has a prefix leading to a Terminal node. |
| Suffix.PathMatch | src/suffix.rs:85-97 | A query with a prefix leading to a Terminal node matches. |
| Suffix.CoversEverything | src/suffix.rs:33-36 | Only a Terminal node matches every label sequence. |
| Suffix.NoEntriesMatchesNothing | src/suffix.rs:21-31 | A node has no Terminal node below it exactly when it matches nothing. |
| Suffix.InsertUnchanged | src/suffix.rs:73-82 | Inserting leaves the tree unchanged exactly when the labels already match. The early return below a Terminal node is one such case. |
| Suffix.InsertIdempotent | src/suffix.rs:70-83 | Inserting the same domain twice gives the same tree as inserting it once. |
| Suffix.InsertBelowTerminal | src/suffix.rs:78-80 | If a Terminal node lies on the path, insertion returns early and changes nothing. |
| Suffix.InsertPrunes | src/suffix.rs:82 | After an insert, nothing lies below the node it turned Terminal. |
| Suffix.InsertCommutes | src/suffix.rs:70-83 | Two insertions give the same tree in either order. |
| Suffix.BuildMoveLast | src/suffix.rs:57-67 | Moving one domain to the end of the list leaves the built tree unchanged. |
| Suffix.BuildPermutation | src/suffix.rs:57-67 | Any permutation of the domain list builds the identical tree. |
| Suffix.BuildRootInternal | src/suffix.rs:70-83 | No sequence of insertions makes the root itself Terminal. |
| Suffix.InsertTerminalPaths | src/suffix.rs:70-83 | Inserting `p` either leaves the Terminal paths as they were (`p` already matches) or drops the paths `p` leads and adds `p`. |
| Suffix.BuildTerminalPaths | src/suffix.rs:21-31 | The entries a built tree counts are the minimal registered label sequences: those that no other registered sequence leads. |
| Suffix.ReinsertUnchanged | src/suffix.rs:159-189 | Re-inserting a domain already inserted leaves the tree, and so its `len`, unchanged. |
| Suffix.NodeEq | src/suffix.rs:47-55 | `PartialEq` is true exactly when the two trees are equal. |
| Suffix.NodeLen | src/suffix.rs:21-31 | The recursive count is the number of Terminal paths of the node. |
| Suffix.SuffixTree.constructor | src/suffix.rs:17-19 | `new`/`default` gives an Internal root with no children. |
| Suffix.SuffixTree.Len | src/suffix.rs:21-31 | `len` is the number of Terminal nodes in the tree. |
| Suffix.SuffixTree.IsEmpty | src/suffix.rs:33-36 | As written: true exactly when the root is Terminal, that is, when the tree matches every label sequence. It is not "has no entries". |
| Suffix.SuffixTree.HasNoEntries | src/suffix.rs:33-36 | Corrected `is_empty`: true exactly when `len` is 0, which is exactly when the tree matches nothing. |
| Suffix.SuffixTree.Insert | src/suffix.rs:70-83 | The cursor walk leaves the root equal to `InsertLabels` of the old root and the domain's labels. |
| Suffix.SuffixTree.Matches | src/suffix.rs:85-97 | The cursor walk returns `MatchLabels` of the root and the domain's labels. |
| Suffix.FromIter | src/suffix.rs:57-67 | A fresh tree equal to the domains inserted in order into a new tree. |
| SuffixExamples.SingleDomain | src/suffix.rs:111-157 | A tree holding one domain matches that domain and its subdomains, and nothing else. |
| SuffixExamples.EmptyTree | src/suffix.rs:104-109 | A new tree matches no name. |
| SuffixExamples.ExactAndSubdomains | src/suffix.rs:111-133 | With `github.com` inserted, `github.com`, `www.github.com` and `a.b.c.d.e.f.g.h.i.github.com` all match. |
| SuffixExamples.NotMatched | src/suffix.rs:135-157 | With `github.com` inserted, `com` and `example.com` do not match. With `foo.example.com` inserted, `bar.example.com` does not match. |
| SuffixExamples.IsEmptyOnBuilt | src/suffix.rs:33-36 | `is_empty` as written is false for every tree built by insertion, including a new tree with no entries. |
| SuffixExamples.LenOneDomain | src/suffix.rs:159-170 | A new tree has `len` 0. After one insert it has `len` 1. |
| SuffixExamples.NotSubdomain | src/suffix.rs:135-157 | A name that differs from `d` where the dot before `d` would sit is not `d` or a subdomain of it. |
| SuffixExamples.NothingBelow | src/suffix.rs:21-31 | If no inserted domain is at or below `d`, no counted entry lies at or below `d`'s labels. |
| SuffixExamples.NotCovered | src/suffix.rs:85-97 | A name that no inserted domain covers does not match. |
| SuffixExamples.LenGrows | src/suffix.rs:21-31 | Inserting a domain unrelated to every inserted one adds exactly one to `len`. |
| SuffixExamples.LenCovered | src/suffix.rs:78-80 | Inserting a subdomain of an inserted domain does not change the tree. |
| SuffixExamples.LenCovers | src/suffix.rs:82 | Inserting a parent of every inserted domain leaves `len` 1. |
| SuffixExamples.LenTwo | src/suffix.rs:172-178 | `github.com` and `example.com` give `len` 2. |
| SuffixExamples.LenThree | src/suffix.rs:180-189 | `www.github.com, github.com, example.com, www.example.com, foobar.com` give `len` 3. |
| Json.AsStr | src/json.rs:11-18 | The tag is `dns`, `tls` or `http`, each for exactly its own source. |
| Json.AsStrInjective | src/json.rs:11-18 | Distinct sources have distinct tags. |
| Json.PktNames | src/json.rs:26-32 | `Pkt::get_names`: the names of the IP layer. |
| Json.IPNames | src/json.rs:42-49 | `IP::get_names`: the names of the IPv4 layer. |
| Json.IPv4Names | src/json.rs:57-65 | `IPv4::get_names`: the names of the TCP or the UDP layer. |
| Json.TCPNames | src/json.rs:73-81 | `TCP::get_names`: the names of the TLS or the HTTP layer. |
| Json.TLSNames | src/json.rs:88-95 | `TLS::get_names`: the names of the ClientHello. |
| Json.ClientHelloNames | src/json.rs:102-107 | `ClientHello::get_names`: the hostname, tagged TLS. |
| Json.HTTPNames | src/json.rs:114-119 | `HTTP::get_names`: the host, tagged HTTP. |
| Json.UDPNames | src/json.rs:126-133 | `UDP::get_names`: the names of the DNS layer. |
| Json.DNSNames | src/json.rs:140-147 | `DNS::get_names`: the names of the request. |
| Json.DNSRequestNames | src/json.rs:154-161 | One `(DNS, name)` pair per question, in question order, with the record type dropped. |
| Json.PktNamesByApp | src/json.rs:26-161 | The layered `get_names` equals one flat table over the innermost record. The Ether, IP, IPv4, TCP, UDP, TLS and DNS layers pass the inner list through unchanged. |
| Json.SourceFollowsTransport | src/json.rs:57-133 | Under TCP there is exactly one name, tagged TLS or HTTP (the hostname or the host itself). Under UDP there is one DNS name per question. A name is tagged DNS exactly when the packet is UDP. |
| Json.Parse | src/json.rs:163-166 | Either the decoder's whole packet or a decode error, nothing partial. |
| Json.ExtractExamples | src/json.rs:195-288 | The three test packets yield exactly `[(DNS, "google.com")]`, `[(TLS, "google.com")]` and `[(HTTP, "google.com")]`. |
| Ioc.IocDomains | src/ioc.rs:15-24 | The domains the loops insert, in order: each record's websites, then its c2 domains, record by record. |
| Ioc.LoadedTree | src/ioc.rs:11-30 | A parser failure is the result's error. Otherwise the result is the tree of the records' domains. |
| Ioc.ParseDomainIocs | src/ioc.rs:11-30 | The nested loops insert each record's websites, then its c2 domains, record by record. A parser error is returned with no tree. |
| Ioc.BuildSnoc | src/ioc.rs:15-24 | Each loop iteration extends the built tree by one inserted domain. |
| Ioc.IocDomainsSnoc | src/ioc.rs:15-24 | One record contributes its websites followed by its c2 domains. |
| Ioc.LoadResult | src/ioc.rs:6-9 | A read failure or a parser failure is the error. Otherwise the result is the parsed tree. |
| Ioc.Load | src/ioc.rs:6-9 | `load` returns that result, with a fresh tree on success. |
| Ioc.InIocDomains | src/ioc.rs:15-24 | A domain is inserted exactly when some record lists it as a website or a c2 domain. |
| Ioc.IocMatches | src/ioc.rs:15-26 | The loaded tree matches a name exactly when it is a listed website or c2 domain, or a subdomain of one. |
| Ioc.IocListedDomainsMatch | src/ioc.rs:15-24 | Every listed website and every listed c2 domain matches once loaded. |
| Ioc.IocIgnoresOtherFields | src/ioc.rs:15-26 | Records that differ only in name, names, packages, certificates or ips load to the same tree. |
| Ioc.IocDomainsAgree | src/ioc.rs:15-26 | The inserted domain list depends on the websites and c2 domains alone. |
| Ioc.IocDomainsMultiset | src/ioc.rs:15-24 | The inserted domains are a permutation of all websites followed by all c2 domains. |
| Ioc.IocTreeByField | src/ioc.rs:15-24 | The tree equals the one built from all websites of all records, then all their c2 domains. |
| Ioc.OwnSpyTree | src/ioc.rs:36-69 | The test record loads to the same tree as `FromIterator` over its four domains. |
| Hostapd.CharsetLowercase | src/hostapd.rs:13 | The charset is 26 characters, all lowercase letters. |
| Hostapd.Letter | src/hostapd.rs:19-20 | Every index `gen_range(0, 26)` can draw selects a lowercase letter. |
| Hostapd.Password | src/hostapd.rs:14-22 | The passphrase is exactly 10 characters, all in `a..z`. |
| Hostapd.Pwgen | src/hostapd.rs:7-23 | The drawing loop returns exactly the passphrase of the ten draws in order. |
| Hostapd.Mkconfig | src/hostapd.rs:26-84 | The fixed template joined line by line, with the interface, network name and passphrase substituted verbatim. Its lines are stated by MkconfigLines. |
| Hostapd.JoinLinesAt | src/hostapd.rs:26-84 | Joining lines keeps every line whole, at its own place. |
| Hostapd.MkconfigLines | src/hostapd.rs:26-84 | The configuration has the lines `interface=<interface>`, `ssid=<ssid>` and `wpa_passphrase=<password>` with the arguments verbatim. It always has `wpa=2` and `wpa_key_mgmt=WPA-PSK`, and it ends with a newline. |
| Hostapd.Contents | src/hostapd.rs:86-90 | The text the file holds: the original, the whole configuration, or the part of it written before a failure. |
| Hostapd.WriteConfig | src/hostapd.rs:86-90 | Ok exactly when the whole text is written, and then the file holds `mkconfig` of the arguments. Every failure is an I/O error. If the file could not be opened, it is left as it was. If writing failed after the open truncated it, the file holds what was written by then. |
| Hostapd.TruncatedPrefix | src/hostapd.rs:88 | A write that failed part way leaves a proper prefix of the configuration, possibly empty. |
| Hostapd.WrittenPassphrase | src/hostapd.rs:86-90 | After a successful write, the file holds the passphrase line of the password just written. |
| Hostapd.Restart | src/hostapd.rs:93-99 | `restart` is Ok exactly when the command could be spawned and awaited. |
| Pipeline.EscapePlain | src/main.rs:28 | A string with nothing to escape prints as itself inside the quotes. |
| Pipeline.DebugQuote | src/main.rs:28 | `{:?}` output starts and ends with a double quote. |
| Pipeline.UnescapeEscape | src/main.rs:28 | Reading the escaped text back gives the original string. |
| Pipeline.DebugQuoteInjective | src/main.rs:28 | Distinct names print distinctly. |
| Pipeline.Send | src/main.rs:36-38 | One attempt: an accepted value is appended to what the receiver took. A refused one is the "sink error" and adds nothing. |
| Pipeline.Deliver | src/main.rs:26-29 | Sending a list of lines with every result dropped makes one attempt per line. |
| Pipeline.DeliverAllAccepted | src/main.rs:26-29 | A receiver that takes every attempt ends up with every line, in order. |
| Pipeline.Subsequence | src/main.rs:26-29 | One list is another with some elements left out and the rest in their order. |
| Pipeline.SubsequenceBounds | src/main.rs:26-29 | A subsequence is never longer and holds no other elements. |
| Pipeline.DeliverSubsequence | src/main.rs:26-29 | What was taken before stays. What the receiver takes after it is a subsequence of the lines sent: lines in the order sent, never more of them, and no other lines. |
| Pipeline.NotReversed | src/main.rs:26-29 | Two distinct lines sent in one order are never taken in the other. |
| Pipeline.DeliverConcat | src/main.rs:45-47 | Sending two lists in turn is sending their concatenation. |
| Pipeline.AlertLine | src/main.rs:28 | `[!] detected(<tag>): <name as {:?} prints it>`. |
| Pipeline.AlertLineInjective | src/main.rs:28 | An alert line identifies both the traffic kind and the name it reports. |
| Pipeline.Detected | src/main.rs:25-26 | The names kept are never more than the names extracted. |
| Pipeline.DetectedMembers | src/main.rs:25-26 | A name is kept exactly when it was extracted and the tree matches it. |
| Pipeline.DetectedConcat | src/main.rs:25-26 | Filtering keeps extraction order: it distributes over concatenation. |
| Pipeline.DetectedSnoc | src/main.rs:25-26 | The last extracted name is kept after the others, if the tree matches it. |
| Pipeline.AlertLines | src/main.rs:28 | One alert line per kept name, in order, each `[!] detected(<tag>): <quoted name>`. |
| Pipeline.AlertsSpec | src/main.rs:21-34 | A line that does not decode yields no alert. Otherwise an alert for a source and name is sent exactly when the packet carried that pair and the tree matches the name. |
| Pipeline.AlertLinesSnoc | src/main.rs:25-29 | One more kept name adds its alert at the end. |
| Pipeline.Alerts | src/main.rs:21-34 | The alerts for one input line: none when it does not decode, otherwise one per matched name in extraction order. AlertsSpec states what they are. |
| Pipeline.ProcessStep | src/main.rs:25-32 | One loop iteration sends the alert exactly when the name matches. |
| Pipeline.Process | src/main.rs:21-34 | `process` hands the sink the alerts of the line in order. It drops every send result and never fails. |
| Pipeline.StreamAlerts | src/main.rs:44-47 | The alerts for a whole input: each line's alerts, line after line. |
| Pipeline.LoadFailure | src/main.rs:41-42 | The context message: `Failed to load iocs from ` and the path as `{:?}` prints it. |
| Pipeline.Stream | src/main.rs:40-50 | A load failure is returned with the `Failed to load iocs from "<path>"` context before any line is read, and the sink is untouched. Otherwise every input line is processed in order and the result is Ok. |
| Pipeline.QuotedSsid | src/main.rs:54-63 | The network name has nothing to escape, so `{:?}` prints it as itself in quotes. |
| Pipeline.Announcement | src/main.rs:63 | `[+] "Starbucks WiFi" (pw: <passphrase>)`. |
| Pipeline.AnnouncementQuotes | src/main.rs:54-63 | The announcement is `[+] `, the network name as `{:?}` prints it, and ` (pw: <passphrase>)`. |
| Pipeline.RoundFile | src/main.rs:58-59 | The config file after a round's write: the outcome of `write_config` with the round's passphrase. |
| Pipeline.Completed | src/main.rs:52-72 | The rounds counted all got through, and the first round not counted failed. |
| Pipeline.CompletedStops | src/main.rs:58-64 | Once a round fails, later rounds never count. |
| Pipeline.Announcements | src/main.rs:63-64 | Round `j`'s announcement names round `j`'s passphrase. |
| Pipeline.Rotate | src/main.rs:54-64 | A failed write ends the round with the write error under its context. The sink is untouched, and the file is whatever the failed write left. Otherwise the new config holds the round's passphrase. The restart outcome is ignored, and the announcement of that passphrase is sent. |
| Pipeline.Hotspot | src/main.rs:52-72 | The final sink, config file and result are those of the first failed round, or of all `k + 1` rounds for `k` triggers. After a failed write the file is what that write left. |
| Pipeline.HotspotStep | src/main.rs:52-72 | A failed round fixes the stage's outcome. A round that gets through starts the next. The last round ends the stage with Ok. |
| Pipeline.HotspotStops | src/main.rs:58-64 | A round that fails is the last one counted. |
| Pipeline.HotspotWriteFails | src/main.rs:58-59 | A failed write ends the stage with that error. Nothing more is announced, and the file is what the failed write left. |
| Pipeline.HotspotSendFails | src/main.rs:63-64 | A refused announcement ends the stage with the sink error, after its round's config was written. |
| Pipeline.HotspotRoundOk | src/main.rs:54-64 | A round that gets through appends its announcement. |
| Pipeline.HotspotDone | src/main.rs:66-71 | When the trigger stream closes after rounds that all got through, the stage returns Ok. |
| Pipeline.HotspotAllThrough | src/main.rs:52-72 | With `k` triggers and no failure, exactly `k + 1` announcements are sent (one for `k = 0`). Each names the passphrase its round wrote to the config. The last passphrase stays in the file, and the stage returns Ok. |
| Pipeline.CompletedAll | src/main.rs:52-72 | If all `n` rounds can get through, all `n` are counted. |

## Left out

- The `select!` orchestration, the tokio tasks and the bounded channels are not modelled. Their point is concurrency. Channels are reduced to a sequence of items (input) or a `Sink` (output).
- `sniff` and `screen` are not modelled. They spawn subprocesses and pump pipes.
- src/rpc.rs, src/stdio.rs and src/args.rs are not part of this model. They are socket, stdin/stdout and command-line plumbing.
- roles/spytrap/files/screen.py is not part of this model. It is display code.
- serde_json decoding is not modelled. It becomes the `Decoder` parameter of `Json.Parse`.
- `stalkerware_indicators::parse_from_buf` is not modelled. It becomes the `RecordParser` parameter.
- The RNG is not modelled. It becomes `Rng`, the index of draw n. `gen_range(0, 26)` is reduced to its range, the type `CharsetIndex`.
- `fs::read`, `fs::write` and `systemctl` are not modelled. They become their outcomes, by round. The I/O error messages are placeholders, not the operating system's text.
- Hostapd.Restart: the exit status of `systemctl` is not modelled. The source ignores it too: only a failure to spawn or await is an error.
- Logging (`warn!`, `debug!`, `info!`) is not modelled. This includes the `len` that `stream` computes only in order to log it.
- Pipeline.DebugQuote: Rust's `{:?}` is simplified. The model escapes `"`, `\`, newline, carriage return, tab and NUL, and nothing else. It does not produce the `\u{..}` escapes for other control or non-printable characters.
- HashMap hashing is not modelled. It is a Dafny `map`.
- `usize` is unbounded here. The counts cannot come near the limit.
- The config file is kept as the arguments of the last write (`Hostapd.ConfigFile`), plus how much was written if that write failed. `Hostapd.Contents` gives its text.
- Hostapd.TruncatedPrefix: a failed write is assumed to leave a prefix of the text. Writes that land out of order on the storage device are not modelled.
- Input lines are `string` rather than bytes. The decoder is the only consumer of the bytes.
- Pipeline.Rotate: one round of the `hotspot` loop body is extracted into its own method. This keeps the loop's proof small. The order write, restart, announce is unchanged.
- Pipeline.QuotedSsid: stated for any string equal to the network name. This stops the verifier from unfolding the quoting of the literal.
- The announcement in the code is `[+] "<ssid>" (pw: <passphrase>)`, with the `[+]` prefix and the quoted network name. The model follows the code.
- The empty domain has no value of its own in the code. It is one empty label, `[""]`, so it matches only a registered empty label. The model follows the code.

## Findings

| source | as written | input that shows it | evidently intended | confidence | as-written member | corrected member |
|---|---|---|---|---|---|---|
| src/suffix.rs:33-36 | `is_empty` returns whether the root is Terminal | a new tree: `len()` is 0 but `is_empty()` is false; on every tree built by `insert`, `is_empty()` is false | `is_empty() == (len() == 0)`, the tree matches nothing | medium, not executed | Suffix.SuffixTree.IsEmpty, SuffixExamples.IsEmptyOnBuilt | Suffix.SuffixTree.HasNoEntries |
