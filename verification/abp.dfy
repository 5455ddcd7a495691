/** The suffix-match decision engine for the `||domain^` subset of Adblock
    Plus filter lists (`BlockDomainsDeciderABP`). */
module Abp {
  import opened Wrappers
  import opened Strings
  import opened Scanner
  import opened Dns
  import opened Blocklist

  /** The key one filter-list line contributes, if any: only a line that
      starts with `||` and ends with `^` counts, untrimmed, and the text
      between the two markers is canonicalised. */
  function ParseLine(line: string): (key: Option<string>)
    ensures key.Some? ==> IsFqdn(key.value)
  {
    if !HasPrefix(line, "||") || !HasSuffix(line, "^") then None
    else Some(Fqdn(TrimSuffix(TrimPrefix(line, "||"), "^")))
  }

  /** An update of this engine: the shared update with this engine's line
      parser. */
  function Update(d: Decider, contents: string): Decider {
    Blocklist.Update(ParseLine, d, contents)
  }

  /** Every key this engine's parser yields is fully qualified. */
  lemma QualifiedKeys()
    ensures QualifiedParser(ParseLine)
  {
    forall line
      ensures ParseLine(line).Some? ==> IsFqdn(ParseLine(line).value)
    {
    }
  }

  /** Every state the engine reaches from construction, through any
      sequence of payloads, is qualified. */
  lemma ReachableValid(payloads: seq<string>)
    ensures Valid(Replay(ParseLine, New(), payloads))
  {
    QualifiedKeys();
    ReplayValid(ParseLine, New(), payloads);
  }

  /** The names the lookup tests for `domain`, read off its labels: every
      right-aligned run of two or more labels joined by dots. */
  predicate Blocked(blocklist: set<string>, domain: string) {
    var labels := Split(domain, '.');
    exists i :: 0 <= i < |labels| - 1 && Join(labels[i..], '.') in blocklist
  }

  /** `IsDomainBlocked`: splits the query on dots and runs the suffix loop
      over its labels. */
  method IsDomainBlocked(d: Decider, domain: string) returns (blocked: bool)
    ensures blocked == Blocked(d.blocklist, domain)
  {
    blocked := AnyTailListed(d.blocklist, Split(domain, '.'));
  }

  /** The lookup loop: starting from the last label, prepends one label at a
      time and tests each name so built, stopping at the first hit; the last
      label alone is never tested. */
  method AnyTailListed(blocklist: set<string>, labels: seq<string>) returns (found: bool)
    requires |labels| >= 1
    ensures found <==> exists i :: 0 <= i < |labels| - 1 && Join(labels[i..], '.') in blocklist
  {
    var current := labels[|labels| - 1];
    var i := |labels| - 2;
    while i >= 0
      invariant -1 <= i <= |labels| - 2
      invariant current == Join(labels[i + 1..], '.')
      invariant forall j :: i < j < |labels| - 1 ==> Join(labels[j..], '.') !in blocklist
    {
      var next := labels[i] + "." + current;
      assert next == Join(labels[i..], '.') by {
        assert labels[i..][1..] == labels[i + 1..];
        JoinCons(labels[i..], '.');
      }
      if next in blocklist {
        return true;
      }
      current := next;
      i := i - 1;
    }
    return false;
  }

  /** `t` is `domain` itself or the part of `domain` after one of its dots. */
  predicate LabelSuffix(t: string, domain: string) {
    t == domain || (|t| < |domain| && domain[|domain| - |t| - 1] == '.' && domain[|domain| - |t|..] == t)
  }

  /** A domain is blocked exactly when the block-set holds a name with a dot
      in it that is the domain itself or the domain's tail after one of its
      dots. */
  lemma BlockedIffLabelSuffix(blocklist: set<string>, domain: string)
    ensures Blocked(blocklist, domain) <==> exists t :: t in blocklist && '.' in t && LabelSuffix(t, domain)
  {
    if Blocked(blocklist, domain) {
      var labels := Split(domain, '.');
      var i :| 0 <= i < |labels| - 1 && Join(labels[i..], '.') in blocklist;
      TestedNameIsLabelSuffix(domain, i);
    }
    if exists t :: t in blocklist && '.' in t && LabelSuffix(t, domain) {
      var t :| t in blocklist && '.' in t && LabelSuffix(t, domain);
      LabelSuffixIsTested(t, domain);
    }
  }

  /** Each name the lookup tests has a dot and is a label-aligned tail of the domain. */
  lemma TestedNameIsLabelSuffix(domain: string, i: nat)
    requires i < |Split(domain, '.')| - 1
    ensures var t := Join(Split(domain, '.')[i..], '.'); '.' in t && LabelSuffix(t, domain)
  {
    var labels := Split(domain, '.');
    var t := Join(labels[i..], '.');
    JoinSplit(domain, '.');
    JoinHasSep(labels[i..], '.');
    if i == 0 {
      assert labels[i..] == labels;
    } else {
      assert labels == labels[..i] + labels[i..];
      JoinAppend(labels[..i], labels[i..], '.');
      assert domain == Join(labels[..i], '.') + ['.'] + t;
    }
  }

  /** Each label-aligned tail with a dot in it is among the names the lookup tests. */
  lemma LabelSuffixIsTested(t: string, domain: string)
    requires '.' in t && LabelSuffix(t, domain)
    ensures exists i :: 0 <= i < |Split(domain, '.')| - 1 && Join(Split(domain, '.')[i..], '.') == t
  {
    var labels := Split(domain, '.');
    SplitHasTwo(t, '.');
    JoinSplit(t, '.');
    if t == domain {
      assert labels[0..] == labels;
    } else {
      var x := domain[..|domain| - |t| - 1];
      assert domain == x + ['.'] + t;
      SplitConcat(x, t, '.');
      var i := |Split(x, '.')|;
      assert labels[i..] == Split(t, '.');
    }
  }

  /** A rule line `||domain^` contributes its domain, canonicalised. */
  lemma RuleLineInserted(domain: string)
    ensures ParseLine("||" + domain + "^") == Some(Fqdn(domain))
  {
    var line := "||" + domain + "^";
    assert line[..2] == "||";
    assert line[|line| - 1..] == "^";
    assert TrimPrefix(line, "||") == domain + "^";
  }

  /** Only rule lines contribute: a line that yields a key is `||`, some
      text, `^`, and the key is that text canonicalised. */
  lemma ParsedLineIsRule(line: string)
    requires ParseLine(line).Some?
    ensures |line| >= 3 && line == "||" + line[2..|line| - 1] + "^"
    ensures ParseLine(line) == Some(Fqdn(line[2..|line| - 1]))
  {
    assert line[..2] == "||";
    assert line[|line| - 1] == '^';
    assert |line| >= 3;
    assert line == line[..2] + line[2..|line| - 1] + [line[|line| - 1]];
    RuleLineInserted(line[2..|line| - 1]);
  }

  /** No trimming happens first: a line that does not begin with `|`, such
      as one with leading white space, contributes nothing. */
  lemma UntrimmedLineSkipped(line: string)
    requires line == [] || line[0] != '|'
    ensures ParseLine(line) == None
  {
    if line != [] {
      assert !HasPrefix(line, "||");
    }
  }

  /** A domain that is blocked stays blocked after any update. */
  lemma StaysBlocked(d: Decider, contents: string, domain: string)
    requires Blocked(d.blocklist, domain)
    ensures Blocked(Update(d, contents).blocklist, domain)
  {
    var labels := Split(domain, '.');
    var i :| 0 <= i < |labels| - 1 && Join(labels[i..], '.') in d.blocklist;
    assert Join(labels[i..], '.') in Update(d, contents).blocklist;
  }

  /** A query with no dot in it has one label and is never blocked. */
  lemma NoDotNeverBlocked(blocklist: set<string>, domain: string)
    requires '.' !in domain
    ensures !Blocked(blocklist, domain)
  {
    SplitNoSep(domain, '.');
  }

  /** Stored keys all end with a dot, so a query without a trailing dot is
      never blocked. */
  lemma UnqualifiedQueryNeverBlocked(d: Decider, domain: string)
    requires Valid(d) && !IsFqdn(domain)
    ensures !Blocked(d.blocklist, domain)
  {
    BlockedIffLabelSuffix(d.blocklist, domain);
    forall t | t in d.blocklist
      ensures !LabelSuffix(t, domain)
    {
      assert IsFqdn(t) && t != domain;
      if |t| < |domain| {
        assert domain[|domain| - |t|..][|t| - 1] == domain[|domain| - 1];
      }
    }
  }

  /** In particular no state the engine reaches from construction blocks a
      query without a trailing dot. */
  lemma UnqualifiedQueryNeverBlockedAfter(payloads: seq<string>, domain: string)
    requires !IsFqdn(domain)
    ensures !Blocked(Replay(ParseLine, New(), payloads).blocklist, domain)
  {
    ReachableValid(payloads);
    UnqualifiedQueryNeverBlocked(Replay(ParseLine, New(), payloads), domain);
  }

  /** Every stored key is itself blocked. */
  lemma KeyIsBlocked(d: Decider, key: string)
    requires Valid(d) && key in d.blocklist
    ensures Blocked(d.blocklist, key)
  {
    assert key[|key| - 1] == '.';
    BlockedIffLabelSuffix(d.blocklist, key);
  }

  /** Every subdomain of a stored key is blocked. */
  lemma SubdomainBlocked(d: Decider, key: string, sub: string)
    requires Valid(d) && key in d.blocklist
    ensures Blocked(d.blocklist, sub + "." + key)
  {
    var domain := sub + "." + key;
    assert key[|key| - 1] == '.';
    assert domain[|domain| - |key|..] == key;
    assert LabelSuffix(key, domain);
    BlockedIffLabelSuffix(d.blocklist, domain);
  }

  /** Matching respects label boundaries: a key does not block a name that
      merely ends with it when the character before it is not a dot. */
  lemma UnalignedSuffixNotBlocked(key: string, prefix: string)
    requires prefix != [] && prefix[|prefix| - 1] != '.'
    ensures !Blocked({key}, prefix + key)
  {
    var domain := prefix + key;
    BlockedIffLabelSuffix({key}, domain);
    assert domain[|domain| - |key| - 1] == prefix[|prefix| - 1];
  }

  /** Appending a label changes which tails are tested: the key
      `ads.example.com.` does not block `ads.example.com.evil.`. The two
      names come in as parameters pinned by the precondition, so that the
      verifier reasons about the lookup rather than evaluating it on the
      literals. */
  lemma AppendedLabelNotBlocked(key: string, domain: string)
    requires key == "ads.example.com." && domain == "ads.example.com.evil."
    ensures !Blocked({key}, domain)
  {
    BlockedIffLabelSuffix({key}, domain);
    assert domain[|domain| - |key| - 1] == 'e';
  }

  /** A one-rule filter list `||<domain>^` stores just the domain,
      canonicalised. */
  lemma SingleRulePayload(domain: string)
    requires '\n' !in domain
    ensures Update(New(), "||" + domain + "^\n").blocklist == {Fqdn(domain)}
  {
    var rule := "||" + domain + "^";
    RuleLineInserted(domain);
    assert '\n' !in rule;
    assert "||" + domain + "^\n" == rule + "\n";
    OneLinePayload(rule);
  }

  /** A payload of one newline-terminated line without a carriage return
      yields exactly that line's key, if it has one. */
  lemma OneLinePayload(line: string)
    requires '\n' !in line
    requires line == [] || line[|line| - 1] != '\r'
    ensures Update(New(), line + "\n").blocklist ==
      (match ParseLine(line) case Some(k) => {k} case None => {})
  {
    DropCRNoop(line);
    assert line + "\n" == line + "\n" + "";
    Blocklist.UpdateFirstLine(ParseLine, New(), line, "");
    Blocklist.UpdateEmpty(ParseLine, New());
  }

  /** With that one rule, the domain and all its subdomains are blocked when
      queried in fully-qualified form. */
  lemma FilterListExample(domain: string, sub: string)
    requires '\n' !in domain
    ensures var d := Update(New(), "||" + domain + "^\n");
      && Blocked(d.blocklist, Fqdn(domain))
      && Blocked(d.blocklist, sub + "." + Fqdn(domain))
  {
    var d := Update(New(), "||" + domain + "^\n");
    SingleRulePayload(domain);
    KeyIsBlocked(d, Fqdn(domain));
    SubdomainBlocked(d, Fqdn(domain), sub);
  }
}
