/** Access-point credentials and the hostapd configuration file.  A fresh
    ten-letter lowercase passphrase is drawn for every rotation and written,
    together with the interface and the network name, into a fixed hostapd
    template. */
module Hostapd {
  import opened Errors

  const CHARSET: string := "abcdefghijklmnopqrstuvwxyz"
  const PASSWORD_LEN: nat := 10

  /** An index the random number generator may draw: `gen_range(0, 26)`
      is half-open, so every draw lies below the charset's length. */
  type CharsetIndex = i: nat | i < 26

  /** The thread RNG, given as the sequence of indices it draws: the n-th
      call of the program's lifetime yields `rng(n)`. */
  type Rng = nat -> CharsetIndex

  lemma CharsetLowercase()
    ensures |CHARSET| == 26
    ensures forall c :: c in CHARSET ==> 'a' <= c <= 'z'
  {
  }

  /** The character a drawn index selects. */
  function Letter(idx: CharsetIndex): (c: char)
    ensures 'a' <= c <= 'z'
  {
    CharsetLowercase();
    CHARSET[idx]
  }

  /** The passphrase built from the draws `from .. from + 9`. */
  function Password(rng: Rng, from: nat): (pw: string)
    ensures |pw| == PASSWORD_LEN
    ensures forall i :: 0 <= i < |pw| ==> 'a' <= pw[i] <= 'z'
  {
    var pw := seq(PASSWORD_LEN, i requires 0 <= i => Letter(rng(from + i)));
    assert forall i :: 0 <= i < |pw| ==> pw[i] == Letter(rng(from + i));
    pw
  }

  /** `pwgen`: draw ten indices in turn and map each through the charset. */
  method Pwgen(rng: Rng, from: nat) returns (pw: string)
    ensures pw == Password(rng, from)
  {
    pw := [];
    for i := 0 to PASSWORD_LEN
      invariant |pw| == i
      invariant forall k :: 0 <= k < i ==> pw[k] == Letter(rng(from + k))
    {
      var idx := rng(from + i);
      pw := pw + [Letter(idx)];
    }
  }

  /** Lines glued with a newline between each two. */
  function JoinLines(ls: seq<string>): string
    requires |ls| >= 1
  {
    if |ls| == 1 then ls[0] else JoinLines(ls[..|ls| - 1]) + "\n" + ls[|ls| - 1]
  }

  /** `line` occupies a whole line of `text`, starting at `pos`. */
  predicate LineAt(text: string, line: string, pos: nat) {
    pos + |line| <= |text|
    && text[pos..pos + |line|] == line
    && (pos == 0 || text[pos - 1] == '\n')
    && (pos + |line| == |text| || text[pos + |line|] == '\n')
  }

  ghost predicate HasLine(text: string, line: string) {
    exists pos: nat :: LineAt(text, line, pos)
  }

  /** Where line `k` of `JoinLines(ls)` begins. */
  function LineStart(ls: seq<string>, k: nat): nat
    requires k < |ls|
  {
    if k == 0 then 0 else LineStart(ls, k - 1) + |ls[k - 1]| + 1
  }

  /** Joining keeps every line whole, at its place. */
  lemma {:induction false} JoinLinesAt(ls: seq<string>, k: nat)
    requires k < |ls|
    ensures LineAt(JoinLines(ls), ls[k], LineStart(ls, k))
    decreases |ls|
  {
    if |ls| > 1 {
      var init := ls[..|ls| - 1];
      var last := ls[|ls| - 1];
      var head := JoinLines(init);
      JoinLinesLength(init);
      assert JoinLines(ls) == head + "\n" + last;
      if k < |ls| - 1 {
        JoinLinesAt(init, k);
        LineStartPrefix(ls, init, k);
        LineAtExtend(head, last, ls[k], LineStart(ls, k));
      } else {
        LineStartPrefix(ls, init, k - 1);
        assert LineStart(ls, k) == |head| + 1;
        LineAtLast(head, last);
      }
    }
  }

  /** Appending a line keeps every earlier line whole. */
  lemma LineAtExtend(head: string, last: string, line: string, pos: nat)
    requires LineAt(head, line, pos)
    ensures LineAt(head + "\n" + last, line, pos)
  {
    var text := head + "\n" + last;
    assert text[pos..pos + |line|] == head[pos..pos + |line|];
    if pos + |line| == |head| {
      assert text[pos + |line|] == '\n';
    } else {
      assert text[pos + |line|] == head[pos + |line|];
    }
  }

  /** The appended line is a whole line. */
  lemma LineAtLast(head: string, last: string)
    ensures LineAt(head + "\n" + last, last, |head| + 1)
  {
    assert (head + "\n" + last)[|head| + 1..] == last;
  }

  lemma {:induction false} LineStartPrefix(ls: seq<string>, init: seq<string>, k: nat)
    requires k < |init| <= |ls| && init == ls[..|init|]
    ensures LineStart(ls, k) == LineStart(init, k)
    ensures k == |init| - 1 && |init| < |ls| ==>
      LineStart(ls, k + 1) == LineStart(init, k) + |init[k]| + 1
    decreases k
  {
    if k > 0 {
      LineStartPrefix(ls, init, k - 1);
    }
  }

  lemma {:induction false} JoinLinesLength(ls: seq<string>)
    requires |ls| >= 1
    ensures |JoinLines(ls)| == LineStart(ls, |ls| - 1) + |ls[|ls| - 1]|
    decreases |ls|
  {
    if |ls| > 1 {
      var init := ls[..|ls| - 1];
      JoinLinesLength(init);
      LineStartPrefix(ls, init, |init| - 1);
    }
  }

  /** The fixed parts of the template, line by line: logging and the
      control socket after the interface line; the radio, WMM, EAPOL and
      authentication-server settings after the network name; the key
      management after the passphrase. */
  const LOGGING_LINES: seq<string> := [
    "",
    "logger_syslog=-1",
    "logger_syslog_level=2",
    "logger_stdout=-1",
    "logger_stdout_level=2",
    "",
    "ctrl_interface=/run/hostapd",
    "ctrl_interface_group=0",
    "" ]

  const RADIO_LINES: seq<string> := [
    "country_code=DE",
    "hw_mode=g",
    "channel=11",
    "beacon_int=100",
    "dtim_period=2",
    "max_num_sta=255",
    "rts_threshold=-1",
    "fragm_threshold=-1",
    "macaddr_acl=0",
    "auth_algs=3",
    "ignore_broadcast_ssid=0",
    "",
    "wmm_enabled=1",
    "wmm_ac_bk_cwmin=4",
    "wmm_ac_bk_cwmax=10",
    "wmm_ac_bk_aifs=7",
    "wmm_ac_bk_txop_limit=0",
    "wmm_ac_bk_acm=0",
    "wmm_ac_be_aifs=3",
    "wmm_ac_be_cwmin=4",
    "wmm_ac_be_cwmax=10",
    "wmm_ac_be_txop_limit=0",
    "wmm_ac_be_acm=0",
    "wmm_ac_vi_aifs=2",
    "wmm_ac_vi_cwmin=3",
    "wmm_ac_vi_cwmax=4",
    "wmm_ac_vi_txop_limit=94",
    "wmm_ac_vi_acm=0",
    "wmm_ac_vo_aifs=2",
    "wmm_ac_vo_cwmin=2",
    "wmm_ac_vo_cwmax=3",
    "wmm_ac_vo_txop_limit=47",
    "wmm_ac_vo_acm=0",
    "",
    "eapol_key_index_workaround=0",
    "",
    "eap_server=0",
    "",
    "own_ip_addr=127.0.0.1",
    "",
    "wpa=2" ]

  const KEY_LINES: seq<string> := [
    "wpa_key_mgmt=WPA-PSK",
    "rsn_pairwise=CCMP",
    "" ]

  /** The template with the three arguments substituted verbatim.  It
      opens with an empty line and ends with a newline. */
  function ConfigLines(interface: string, ssid: string, password: string): seq<string> {
    ["", "interface=" + interface] + LOGGING_LINES
    + ["ssid=" + ssid] + RADIO_LINES
    + ["wpa_passphrase=" + password] + KEY_LINES
  }

  lemma LineIn(ls: seq<string>, k: nat, line: string)
    requires k < |ls| && ls[k] == line
    ensures HasLine(JoinLines(ls), line)
  {
    JoinLinesAt(ls, k);
  }

  /** A trailing empty line leaves a final newline. */
  lemma EndsWithNewline(ls: seq<string>)
    requires |ls| >= 2 && ls[|ls| - 1] == ""
    ensures var text := JoinLines(ls); |text| > 0 && text[|text| - 1] == '\n'
  {
  }

  /** `mkconfig`: the hostapd configuration for an interface, a network name
      and a WPA2 passphrase. */
  function Mkconfig(interface: string, ssid: string, password: string): string {
    JoinLines(ConfigLines(interface, ssid, password))
  }

  /** The configuration holds the interface, network-name and passphrase
      lines with the arguments verbatim, always selects WPA2 with a
      pre-shared key, and ends with a newline. */
  lemma MkconfigLines(interface: string, ssid: string, password: string)
    ensures var text := Mkconfig(interface, ssid, password);
      && HasLine(text, "interface=" + interface)
      && HasLine(text, "ssid=" + ssid)
      && HasLine(text, "wpa_passphrase=" + password)
      && HasLine(text, "wpa=2")
      && HasLine(text, "wpa_key_mgmt=WPA-PSK")
      && |text| > 0 && text[|text| - 1] == '\n'
  {
    var ls := ConfigLines(interface, ssid, password);
    LineIn(ls, 1, "interface=" + interface);
    LineIn(ls, 11, "ssid=" + ssid);
    LineIn(ls, 52, "wpa=2");
    LineIn(ls, 53, "wpa_passphrase=" + password);
    LineIn(ls, 54, "wpa_key_mgmt=WPA-PSK");
    EndsWithNewline(ls);
  }

  const WRITE_ERROR: string := "failed to write hostapd config file"

  /** The hostapd config file: whatever was there before the stage first
      wrote it (`None` when there was no file), the configuration rendered
      from the arguments of a successful write, or the first `kept`
      characters of that configuration when the write failed part way. */
  datatype ConfigFile =
    | Original(text: Option<string>)
    | Rendered(interface: string, ssid: string, password: string)
    | Truncated(interface: string, ssid: string, password: string, kept: nat)

  /** The file's contents, `None` when there is no file.  A truncated file
      holds a proper prefix of the configuration: the write stopped before
      its end. */
  function Contents(f: ConfigFile): Option<string> {
    match f
    case Original(text) => text
    case Rendered(interface, ssid, password) => Some(Mkconfig(interface, ssid, password))
    case Truncated(interface, ssid, password, kept) =>
      var text := Mkconfig(interface, ssid, password);
      Some(if kept < |text| then text[..kept] else if text == [] then [] else text[..|text| - 1])
  }

  /** How `fs::write` turns out: the whole text is written; the file could
      not be opened (it is left as it was); or it was opened, which
      truncates it, and writing failed after `kept` characters. */
  datatype WriteOutcome = Written | OpenFailed | WriteFailed(kept: nat)

  /** `write_config`: render the configuration and write it to the file.
      The write is given by its outcome. */
  function WriteConfig(file: ConfigFile, outcome: WriteOutcome, interface: string, ssid: string, password: string)
    : (r: (ConfigFile, Result<()>))
    ensures r.1.Ok? <==> outcome.Written?
    ensures r.1.Err? ==> r.1.error == Io(WRITE_ERROR)
    ensures outcome.Written? ==> r.0 == Rendered(interface, ssid, password)
    ensures outcome.OpenFailed? ==> r.0 == file
    ensures outcome.WriteFailed? ==> r.0 == Truncated(interface, ssid, password, outcome.kept)
  {
    match outcome
    case Written => (Rendered(interface, ssid, password), Ok(()))
    case OpenFailed => (file, Err(Io(WRITE_ERROR)))
    case WriteFailed(kept) => (Truncated(interface, ssid, password, kept), Err(Io(WRITE_ERROR)))
  }

  /** After a write that failed part way the file holds a proper prefix of
      the configuration, possibly the empty one. */
  lemma TruncatedPrefix(interface: string, ssid: string, password: string, kept: nat)
    ensures var text := Mkconfig(interface, ssid, password);
      var f := Contents(Truncated(interface, ssid, password, kept));
      && f.Some? && f.value <= text && |f.value| < |text|
      && (kept < |text| ==> |f.value| == kept)
  {
    MkconfigLines(interface, ssid, password);
  }

  /** After a successful write the file holds the passphrase line of the
      password just drawn. */
  lemma WrittenPassphrase(file: ConfigFile, interface: string, ssid: string, password: string)
    ensures var f := WriteConfig(file, Written, interface, ssid, password).0;
      Contents(f).Some? && HasLine(Contents(f).value, "wpa_passphrase=" + password)
  {
    MkconfigLines(interface, ssid, password);
  }

  /** `restart`: ask the service manager to restart hostapd; the outcome of
      spawning and awaiting the command is given. */
  function Restart(spawned: bool): (r: Result<()>)
    ensures r.Ok? <==> spawned
  {
    if spawned then Ok(()) else Err(Io("failed to run systemctl"))
  }
}
