/** The exact-match decision engine for hosts-file blocklists
    (`BlockDomainsDeciderHosts`). */
module Hosts {
  import opened Wrappers
  import opened Strings
  import opened Scanner
  import opened Dns
  import opened Blocklist

  /** The key one hosts-file line contributes, if any: the line is trimmed,
      blank and `#` lines are comments, and otherwise the field after the
      first single space is canonicalised. */
  function ParseLine(line: string): (key: Option<string>)
    ensures key.Some? ==> IsFqdn(key.value)
  {
    var t := TrimSpace(line);
    if t == "" || HasPrefix(t, "#") then None
    else
      var fields := Split(t, ' ');
      if |fields| < 2 then None else Some(Fqdn(fields[1]))
  }

  /** An update of this engine: the shared update with this engine's line
      parser. */
  function Update(d: Decider, contents: string): Decider {
    Blocklist.Update(ParseLine, d, contents)
  }

  /** Every key this engine's parser yields is fully qualified. */
  lemma QualifiedKeys()
    ensures QualifiedParser(ParseLine)
  {
    forall line
      ensures ParseLine(line).Some? ==> IsFqdn(ParseLine(line).value)
    {
    }
  }

  /** Every state the engine reaches from construction, through any
      sequence of payloads, is qualified. */
  lemma ReachableValid(payloads: seq<string>)
    ensures Valid(Replay(ParseLine, New(), payloads))
  {
    QualifiedKeys();
    ReplayValid(ParseLine, New(), payloads);
  }

  /** `IsDomainBlocked`: exact membership of the query, with no normalisation. */
  function IsDomainBlocked(d: Decider, domain: string): bool {
    domain in d.blocklist
  }

  /** Blank lines and `#` comments contribute nothing. */
  lemma CommentLineSkipped(line: string)
    requires TrimSpace(line) == "" || TrimSpace(line)[0] == '#'
    ensures ParseLine(line) == None
  {
  }

  /** A line without a single space, after trimming, has fewer than two
      fields and contributes nothing. */
  lemma SingleFieldLineSkipped(line: string)
    requires ' ' !in TrimSpace(line)
    ensures ParseLine(line) == None
  {
    SplitNoSep(TrimSpace(line), ' ');
  }

  /** A data line contributes its second field: the text between the first
      space (at `p`) and the next space or the end of the line (at `q`). */
  lemma SecondFieldInserted(line: string, p: nat, q: nat)
    requires var t := TrimSpace(line);
      && p < q <= |t| && t[0] != '#' && t[p] == ' '
      && ' ' !in t[..p] && ' ' !in t[p + 1..q] && (q == |t| || t[q] == ' ')
    ensures ParseLine(line) == Some(Fqdn(TrimSpace(line)[p + 1..q]))
  {
    SecondPiece(TrimSpace(line), ' ', p, q);
  }

  /** The split is on one space only: an address and a domain separated by
      a tab form a single field, and the line is skipped. */
  lemma TabSeparatedLineSkipped(address: string, domain: string)
    requires ' ' !in address && ' ' !in domain
    ensures ParseLine(address + "\t" + domain) == None
  {
    var line := address + "\t" + domain;
    assert ' ' !in line;
    TrimSpaceKeeps(line, ' ');
    SingleFieldLineSkipped(line);
  }

  /** Two spaces in a row leave an empty second field, which becomes the
      root name `"."`. */
  lemma DoubleSpaceInsertsRoot(address: string, domain: string)
    requires address != "" && !IsSpace(address[0]) && address[0] != '#' && ' ' !in address
    requires domain != "" && !IsSpace(domain[|domain| - 1])
    ensures ParseLine(address + "  " + domain) == Some(".")
  {
    var line := address + "  " + domain;
    TrimSpaceNoop(line);
    assert line[..|address|] == address;
    assert line[|address| + 1..|address| + 1] == "";
    SecondFieldInserted(line, |address|, |address| + 1);
    assert Fqdn("") == ".";
  }

  /** Stored keys all end with a dot, so a query without one never matches. */
  lemma UnqualifiedQueryNeverBlocked(d: Decider, domain: string)
    requires Valid(d) && !IsFqdn(domain)
    ensures !IsDomainBlocked(d, domain)
  {
  }

  /** In particular no state the engine reaches from construction blocks a
      query without a trailing dot. */
  lemma UnqualifiedQueryNeverBlockedAfter(payloads: seq<string>, domain: string)
    requires !IsFqdn(domain)
    ensures !IsDomainBlocked(Replay(ParseLine, New(), payloads), domain)
  {
    ReachableValid(payloads);
    UnqualifiedQueryNeverBlocked(Replay(ParseLine, New(), payloads), domain);
  }

  /** A non-empty field with no white space in it. */
  predicate PlainField(s: string) {
    s != [] && forall i :: 0 <= i < |s| ==> !IsSpace(s[i])
  }

  lemma PlainFieldLacks(s: string, c: char)
    requires PlainField(s) && IsSpace(c)
    ensures c !in s
  {
  }

  /** The usual data line `<address> <domain>` blocks its domain. */
  lemma DataLineInserted(address: string, domain: string)
    requires PlainField(address) && address[0] != '#' && PlainField(domain)
    ensures ParseLine(address + " " + domain) == Some(Fqdn(domain))
  {
    var line := address + " " + domain;
    PlainFieldLacks(address, ' ');
    PlainFieldLacks(domain, ' ');
    assert line[0] == address[0] && line[|line| - 1] == domain[|domain| - 1];
    TrimSpaceNoop(line);
    assert line[..|address|] == address;
    assert line[|address| + 1..|line|] == domain;
    SecondFieldInserted(line, |address|, |line|);
  }

  /** A line whose first character is `#` is a comment, whatever follows. */
  lemma HashLineSkipped(line: string)
    requires line != [] && line[0] == '#'
    ensures ParseLine(line) == None
  {
    assert TrimLeftSpace(line) == line;
    TrimRightSpaceSpec(line);
  }

  /** A hosts file of a data line, a comment and another data line blocks
      exactly the two domains, canonicalised; the parent of a blocked domain
      stays allowed unless it is listed itself. */
  lemma HostsFileExample(a1: string, d1: string, comment: string, a3: string, d3: string)
    requires PlainField(a1) && a1[0] != '#' && PlainField(d1)
    requires PlainField(a3) && a3[0] != '#' && PlainField(d3)
    requires comment != [] && comment[0] == '#' && '\n' !in comment && comment[|comment| - 1] != '\r'
    ensures var d := Update(New(), a1 + " " + d1 + "\n" + comment + "\n" + a3 + " " + d3 + "\n");
      && d.blocklist == {Fqdn(d1), Fqdn(d3)}
      && IsDomainBlocked(d, Fqdn(d1))
      && IsDomainBlocked(d, Fqdn(d3))
  {
    var l1, l3 := a1 + " " + d1, a3 + " " + d3;
    var p3 := l3 + "\n" + "";
    var p2 := comment + "\n" + p3;
    var p1 := l1 + "\n" + p2;
    assert a1 + " " + d1 + "\n" + comment + "\n" + a3 + " " + d3 + "\n" == p1;
    PlainFieldLacks(a1, '\n');
    PlainFieldLacks(d1, '\n');
    PlainFieldLacks(a3, '\n');
    PlainFieldLacks(d3, '\n');
    assert '\n' !in l1 && '\n' !in l3;
    DropCRNoop(l1);
    DropCRNoop(comment);
    DropCRNoop(l3);
    Blocklist.UpdateEmpty(ParseLine, New());
    DataLineInserted(a3, d3);
    Blocklist.UpdateFirstLine(ParseLine, New(), l3, "");
    HashLineSkipped(comment);
    Blocklist.UpdateFirstLine(ParseLine, New(), comment, p3);
    DataLineInserted(a1, d1);
    Blocklist.UpdateFirstLine(ParseLine, New(), l1, p2);
  }
}
