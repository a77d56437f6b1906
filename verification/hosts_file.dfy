/**
 The hosts-file updater of the console DNS updater: one pass over the lines
 of the hosts file that points every entry for the machine's host name at the
 current public address, or appends such an entry when there is none. The
 file is a sequence of lines; reading and writing it, and fetching the public
 address, are left to the caller.
 */
module HostsFile {
  import opened Common

  /** The characters a hosts line is split on. */
  predicate IsSeparator(c: char)
  {
    c == ' ' || c == '\t'
  }

  /** A non-empty run of characters with no separator in it. */
  predicate IsToken(w: string)
  {
    w != "" && forall k :: 0 <= k < |w| ==> !IsSeparator(w[k])
  }

  /** The longest separator-free prefix. */
  function Word(s: string): (w: string)
    ensures |w| <= |s| && w == s[..|w|]
    ensures forall k :: 0 <= k < |w| ==> !IsSeparator(w[k])
    ensures |w| < |s| ==> IsSeparator(s[|w|])
  {
    if s == "" || IsSeparator(s[0]) then "" else [s[0]] + Word(s[1..])
  }

  /** `line.Split(new[] { ' ', '\t' }, StringSplitOptions.RemoveEmptyEntries)`. */
  function Fields(s: string): (fs: seq<string>)
    ensures forall i :: 0 <= i < |fs| ==> IsToken(fs[i])
    decreases |s|
  {
    if s == "" then []
    else if IsSeparator(s[0]) then Fields(s[1..])
    else
      var w := Word(s);
      [w] + Fields(s[|w|..])
  }

  /** A token followed by a separator or by nothing is read back whole. */
  lemma {:induction false} WordOfToken(w: string, rest: string)
    requires forall k :: 0 <= k < |w| ==> !IsSeparator(w[k])
    requires rest == "" || IsSeparator(rest[0])
    ensures Word(w + rest) == w
  {
    if w != "" {
      assert (w + rest)[1..] == w[1..] + rest;
      WordOfToken(w[1..], rest);
    }
  }

  /** The text of the entry the updater writes. */
  function Entry(ip: string, hostname: string): string
  {
    ip + "\t" + hostname
  }

  /** Splitting an entry gives back its two tokens. */
  lemma FieldsOfEntry(ip: string, hostname: string)
    requires IsToken(ip) && IsToken(hostname)
    ensures Fields(Entry(ip, hostname)) == [ip, hostname]
  {
    var s := Entry(ip, hostname);
    var tail := "\t" + hostname;
    assert s == ip + tail;
    WordOfToken(ip, tail);
    assert s[|ip|..] == tail;
    assert Fields(s) == [ip] + Fields(tail);
    assert tail[1..] == hostname;
    assert Fields(tail) == Fields(hostname);
    WordOfToken(hostname, "");
    assert hostname + "" == hostname;
    assert hostname[|hostname|..] == "";
    assert Fields(hostname) == [hostname] + Fields("");
  }

  /** Blank lines and comments are copied without being looked at. */
  predicate IsSkipped(line: string)
  {
    IsBlank(line) || StartsWith(TrimStart(line), "#")
  }

  /** An entry line whose second field names the host, in any case. */
  predicate Matches(line: string, hostname: string)
  {
    !IsSkipped(line) && |Fields(line)| >= 2 && EqualsIgnoreCase(Fields(line)[1], hostname)
  }

  predicate AnyMatch(lines: seq<string>, hostname: string)
  {
    exists j :: 0 <= j < |lines| && Matches(lines[j], hostname)
  }

  /** What becomes of one line. */
  function RewriteLine(line: string, ip: string, hostname: string): string
  {
    if Matches(line, hostname) then Entry(ip, hostname) else line
  }

  /** `UpdateHostsFile` on the lines of the file. */
  function UpdateHosts(lines: seq<string>, ip: string, hostname: string): (r: seq<string>)
    // every matching line is replaced in place, every other line is kept
    ensures |r| >= |lines|
    ensures forall i :: 0 <= i < |lines| ==> (Matches(lines[i], hostname) ==> r[i] == Entry(ip, hostname))
    ensures forall i :: 0 <= i < |lines| ==> (!Matches(lines[i], hostname) ==> r[i] == lines[i])
    // one line is appended exactly when no line matched
    ensures |r| == |lines| + 1 <==> !AnyMatch(lines, hostname)
    ensures |r| == |lines| + 1 ==> r[|lines|] == Entry(ip, hostname)
    ensures |r| <= |lines| + 1
  {
    var kept := seq(|lines|, i requires 0 <= i < |lines| => RewriteLine(lines[i], ip, hostname));
    if AnyMatch(lines, hostname) then kept else kept + [Entry(ip, hostname)]
  }

  /** An address and host name the updater can find again after writing them. */
  predicate WellFormedEntry(ip: string, hostname: string)
  {
    IsToken(ip) && IsToken(hostname) && !IsWhiteSpace(ip[0]) && ip[0] != '#'
  }

  /** A well-formed entry is itself an entry line for its host. */
  lemma EntryMatches(ip: string, hostname: string)
    requires WellFormedEntry(ip, hostname)
    ensures Matches(Entry(ip, hostname), hostname)
  {
    var s := Entry(ip, hostname);
    FieldsOfEntry(ip, hostname);
    assert s[0] == ip[0];
    assert !IsBlank(s);
    assert TrimStart(s) == s;
  }

  /** After an update the host has an entry, and every entry line for the host
      points at the new address. */
  lemma UpdateHostsResolves(lines: seq<string>, ip: string, hostname: string)
    requires WellFormedEntry(ip, hostname)
    ensures var r := UpdateHosts(lines, ip, hostname);
            AnyMatch(r, hostname) &&
            forall i :: 0 <= i < |r| && Matches(r[i], hostname) ==> r[i] == Entry(ip, hostname)
  {
    var r := UpdateHosts(lines, ip, hostname);
    EntryMatches(ip, hostname);
    if AnyMatch(lines, hostname) {
      var j :| 0 <= j < |lines| && Matches(lines[j], hostname);
      assert Matches(r[j], hostname);
    } else {
      assert Matches(r[|lines|], hostname);
    }
  }

  /** Running the updater twice with the same address writes the same file as
      running it once. */
  lemma UpdateHostsIdempotent(lines: seq<string>, ip: string, hostname: string)
    requires WellFormedEntry(ip, hostname)
    ensures UpdateHosts(UpdateHosts(lines, ip, hostname), ip, hostname) == UpdateHosts(lines, ip, hostname)
  {
    var r := UpdateHosts(lines, ip, hostname);
    UpdateHostsResolves(lines, ip, hostname);
    var r2 := UpdateHosts(r, ip, hostname);
    assert |r2| == |r|;
    forall i | 0 <= i < |r|
      ensures r2[i] == r[i]
    {
    }
  }

  /** No line is an entry for the empty host name: every field is non-empty. */
  lemma NothingMatchesEmptyHostname(line: string)
    ensures !Matches(line, "")
  {
    if !IsSkipped(line) && |Fields(line)| >= 2 {
      assert IsToken(Fields(line)[1]);
      assert |Upper(Fields(line)[1])| != |Upper("")|;
    }
  }

  /** With an empty host name nothing ever matches, so every run, on any file
      and with any address, appends one more line and changes no other. */
  lemma EmptyHostnameAppendsAgain(lines: seq<string>, ip: string)
    ensures UpdateHosts(lines, ip, "") == lines + [Entry(ip, "")]
  {
    forall j | 0 <= j < |lines|
      ensures !Matches(lines[j], "")
    {
      NothingMatchesEmptyHostname(lines[j]);
    }
    var r := UpdateHosts(lines, ip, "");
    assert |r| == |lines| + 1;
    assert forall j :: 0 <= j < |lines| ==> r[j] == (lines + [Entry(ip, "")])[j];
  }

  /** One line of the loop: whether it is an entry for the host (blank and
      comment lines are not split at all). */
  method IsEntryFor(line: string, hostname: string) returns (matched: bool)
    ensures matched <==> Matches(line, hostname)
  {
    matched := false;
    if !(IsBlank(line) || StartsWith(TrimStart(line), "#")) {
      var parts := Fields(line);
      matched := |parts| >= 2 && EqualsIgnoreCase(parts[1], hostname);
    }
  }

  /** Extending a line-by-line rewrite of the first `i` lines by line `i`. */
  lemma SnocPointwise(content: seq<string>, out: string, lines: seq<string>, i: nat, ip: string, hostname: string)
    requires |content| == i < |lines|
    requires forall j :: 0 <= j < i ==> content[j] == RewriteLine(lines[j], ip, hostname)
    requires out == RewriteLine(lines[i], ip, hostname)
    ensures forall j :: 0 <= j < i + 1 ==> (content + [out])[j] == RewriteLine(lines[j], ip, hostname)
  {
    forall j | 0 <= j < i + 1
      ensures (content + [out])[j] == RewriteLine(lines[j], ip, hostname)
    {
      if j < i { assert (content + [out])[j] == content[j]; }
    }
  }

  /** An entry among the first `i + 1` lines is one among the first `i`, or line `i`. */
  lemma FoundStep(lines: seq<string>, i: nat, hostname: string)
    requires i < |lines|
    ensures (exists j :: 0 <= j < i + 1 && Matches(lines[j], hostname)) <==>
            (exists j :: 0 <= j < i && Matches(lines[j], hostname)) || Matches(lines[i], hostname)
  {
  }

  /** The updater's loop: copy or replace line by line, remembering whether
      an entry was found. */
  method RewriteLines(lines: seq<string>, ip: string, hostname: string) returns (content: seq<string>, entryFound: bool)
    ensures |content| == |lines|
    ensures forall j :: 0 <= j < |lines| ==> content[j] == RewriteLine(lines[j], ip, hostname)
    ensures entryFound <==> AnyMatch(lines, hostname)
  {
    content := [];
    entryFound := false;
    var i := 0;
    while i < |lines|
      invariant 0 <= i <= |lines|
      invariant |content| == i
      invariant forall j :: 0 <= j < i ==> content[j] == RewriteLine(lines[j], ip, hostname)
      invariant entryFound <==> exists j :: 0 <= j < i && Matches(lines[j], hostname)
    {
      var matched := IsEntryFor(lines[i], hostname);
      FoundStep(lines, i, hostname);
      var out := if matched then Entry(ip, hostname) else lines[i];
      assert out == RewriteLine(lines[i], ip, hostname);
      SnocPointwise(content, out, lines, i, ip, hostname);
      content := content + [out];
      entryFound := entryFound || matched;
      i := i + 1;
    }
  }

  /** `UpdateHostsFile`: the loop, then one appended entry if none was found. */
  method UpdateHostsFile(lines: seq<string>, ip: string, hostname: string) returns (content: seq<string>)
    ensures content == UpdateHosts(lines, ip, hostname)
  {
    var entryFound;
    content, entryFound := RewriteLines(lines, ip, hostname);
    if !entryFound {
      content := content + [Entry(ip, hostname)];
    }
    var r := UpdateHosts(lines, ip, hostname);
    assert |content| == |r|;
    assert forall j :: 0 <= j < |lines| ==> content[j] == r[j];
  }
}
