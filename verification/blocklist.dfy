/** What the two decision engines share: a block-set that starts empty, and
    an update that scans a payload line by line, asks the engine's line
    parser for a key, and only ever adds. The engines differ only in their
    parser and in their lookup. */
module Blocklist {
  import opened Wrappers
  import opened Dns
  import opened Scanner

  /** An engine's state: its block-set of domain names. */
  datatype Decider = Decider(blocklist: set<string>)

  /** Every stored key is fully qualified. */
  predicate Valid(d: Decider) {
    forall k :: k in d.blocklist ==> IsFqdn(k)
  }

  /** A freshly constructed engine blocks nothing, so it is trivially
      qualified. */
  function New(): (d: Decider)
    ensures forall k :: k !in d.blocklist
    ensures Valid(d)
  {
    Decider({})
  }

  /** Every key a parser produced is fully qualified. */
  predicate AllFqdn(found: seq<Option<string>>) {
    forall i :: 0 <= i < |found| && found[i].Some? ==> IsFqdn(found[i].value)
  }

  /** A line parser whose keys are always fully qualified. */
  ghost predicate QualifiedParser(parse: string -> Option<string>) {
    forall line :: parse(line).Some? ==> IsFqdn(parse(line).value)
  }

  /** The keys an insert loop adds, given what each line parsed to: exactly
      the keys some line produced. */
  function Collect(found: seq<Option<string>>): (keys: set<string>)
    ensures forall k :: k in keys <==> exists i :: 0 <= i < |found| && found[i] == Some(k)
  {
    if |found| == 0 then {}
    else
      var init := found[..|found| - 1];
      var keys := Collect(init);
      assert forall i :: 0 <= i < |init| ==> init[i] == found[i];
      match found[|found| - 1]
      case Some(k) => keys + {k}
      case None => keys
  }

  /** The keys of a first line and of the lines after it. */
  lemma CollectCons(first: Option<string>, rest: seq<Option<string>>)
    ensures Collect([first] + rest) == Collect(rest) + (if first.Some? then {first.value} else {})
  {
    var all := [first] + rest;
    assert forall i :: 0 < i < |all| ==> all[i] == rest[i - 1];
    forall k | k in Collect(rest)
      ensures k in Collect(all)
    {
      var i :| 0 <= i < |rest| && rest[i] == Some(k);
      assert all[i + 1] == Some(k);
    }
    forall k | k in Collect(all)
      ensures k in Collect(rest) || first == Some(k)
    {
      var i :| 0 <= i < |all| && all[i] == Some(k);
      if i > 0 {
        assert rest[i - 1] == Some(k);
      }
    }
    assert first.Some? ==> all[0] == first;
  }

  /** Inserting the keys of one payload: nothing is removed, the keys added
      are exactly those some line produced, and qualified keys keep the
      block-set qualified. */
  function Apply(d: Decider, found: seq<Option<string>>): (d': Decider)
    ensures d.blocklist <= d'.blocklist
    ensures forall k :: k in d'.blocklist <==> k in d.blocklist || exists i :: 0 <= i < |found| && found[i] == Some(k)
    ensures Valid(d) && AllFqdn(found) ==> Valid(d')
  {
    Decider(d.blocklist + Collect(found))
  }

  /** Applying the same keys twice is the same as applying them once. */
  lemma ApplyIdempotent(d: Decider, found: seq<Option<string>>)
    ensures Apply(Apply(d, found), found) == Apply(d, found)
  {
  }

  /** Two lists of keys may be applied in either order. */
  lemma ApplyCommutes(d: Decider, a: seq<Option<string>>, b: seq<Option<string>>)
    ensures Apply(Apply(d, a), b) == Apply(Apply(d, b), a)
  {
  }

  /** What each scanned line of a payload parses to, in order. */
  function Found(parse: string -> Option<string>, contents: string): (found: seq<Option<string>>)
    ensures |found| == |ScanLines(contents)|
    ensures forall i :: 0 <= i < |found| ==> found[i] == parse(ScanLines(contents)[i])
    ensures QualifiedParser(parse) ==> AllFqdn(found)
  {
    var lines := ScanLines(contents);
    seq(|lines|, i requires 0 <= i < |lines| => parse(lines[i]))
  }

  /** Some scanned line of `contents` parses to the key `k`. */
  ghost predicate Produces(parse: string -> Option<string>, contents: string, k: string) {
    exists i :: 0 <= i < |ScanLines(contents)| && parse(ScanLines(contents)[i]) == Some(k)
  }

  /** Applying a payload keeps every old key and adds exactly the keys some
      scanned line parses to. */
  function Update(parse: string -> Option<string>, d: Decider, contents: string): (d': Decider)
    ensures d.blocklist <= d'.blocklist
    ensures forall k :: k in d'.blocklist <==> k in d.blocklist || Produces(parse, contents, k)
    ensures Valid(d) && QualifiedParser(parse) ==> Valid(d')
  {
    Apply(d, Found(parse, contents))
  }

  /** `UpdateBlocklist` of either engine: scans the payload, inserts the key
      of every line that yields one, and reports no error. */
  method UpdateBlocklist(parse: string -> Option<string>, d: Decider, contents: string)
    returns (d': Decider, err: Option<string>)
    ensures d' == Update(parse, d, contents)
    ensures err == None
  {
    var lines := ScanLines(contents);
    ghost var found := Found(parse, contents);
    var blocklist := d.blocklist;
    var n := 0;
    while n < |lines|
      invariant n <= |lines|
      invariant blocklist == d.blocklist + Collect(found[..n])
    {
      assert found[..n + 1][..n] == found[..n];
      var key := parse(lines[n]);
      if key.Some? {
        blocklist := blocklist + {key.value};
      }
      n := n + 1;
    }
    assert found[..n] == found;
    return Decider(blocklist), None;
  }

  /** An empty payload changes nothing. */
  lemma UpdateEmpty(parse: string -> Option<string>, d: Decider)
    ensures Update(parse, d, "") == d
  {
  }

  /** A payload's first line adds its key, if any, and the rest of the
      payload is applied as if that line were absent; a line the parser
      rejects therefore never stops the update. */
  lemma UpdateFirstLine(parse: string -> Option<string>, d: Decider, line: string, rest: string)
    requires '\n' !in line
    ensures Update(parse, d, line + "\n" + rest).blocklist ==
      Update(parse, d, rest).blocklist + (match parse(DropCR(line)) case Some(k) => {k} case None => {})
  {
    ScanFirstLine(line, rest);
    assert ScanLines(line + "\n" + rest) == [DropCR(line)] + ScanLines(rest);
    var found := Found(parse, line + "\n" + rest);
    assert found == [parse(DropCR(line))] + Found(parse, rest);
    CollectCons(parse(DropCR(line)), Found(parse, rest));
  }

  /** Applying the same payload twice is the same as applying it once. */
  lemma UpdateIdempotent(parse: string -> Option<string>, d: Decider, contents: string)
    ensures Update(parse, Update(parse, d, contents), contents) == Update(parse, d, contents)
  {
    ApplyIdempotent(d, Found(parse, contents));
  }

  /** Two payloads may be applied in either order. */
  lemma UpdateCommutes(parse: string -> Option<string>, d: Decider, a: string, b: string)
    ensures Update(parse, Update(parse, d, a), b) == Update(parse, Update(parse, d, b), a)
  {
    ApplyCommutes(d, Found(parse, a), Found(parse, b));
  }

  /** The engine's consumer loop: payloads applied one after another, in
      the order they were published. */
  function Replay(parse: string -> Option<string>, d: Decider, payloads: seq<string>): Decider
    decreases |payloads|
  {
    if |payloads| == 0 then d else Replay(parse, Update(parse, d, payloads[0]), payloads[1..])
  }

  /** After any sequence of payloads a key is blocked exactly when it was
      blocked before or some scanned line of some payload parses to it; in
      particular the result does not depend on the order of the payloads,
      and a key that one payload produced is never dropped by a later one. */
  lemma {:induction false} ReplayMembership(parse: string -> Option<string>, d: Decider, payloads: seq<string>, k: string)
    ensures k in Replay(parse, d, payloads).blocklist <==>
      k in d.blocklist || exists j :: 0 <= j < |payloads| && Produces(parse, payloads[j], k)
    decreases |payloads|
  {
    if |payloads| > 0 {
      ReplayMembership(parse, Update(parse, d, payloads[0]), payloads[1..], k);
      assert forall j :: 0 < j < |payloads| ==> payloads[1..][j - 1] == payloads[j];
      if exists j :: 0 <= j < |payloads| && Produces(parse, payloads[j], k) {
        var j :| 0 <= j < |payloads| && Produces(parse, payloads[j], k);
        if j > 0 {
          assert Produces(parse, payloads[1..][j - 1], k);
        }
      }
    }
  }

  /** Starting from a qualified state, a qualified parser keeps the state
      qualified across any sequence of payloads; in particular every state
      an engine reaches from `New()` is qualified. */
  lemma {:induction false} ReplayValid(parse: string -> Option<string>, d: Decider, payloads: seq<string>)
    requires Valid(d) && QualifiedParser(parse)
    ensures Valid(Replay(parse, d, payloads))
    decreases |payloads|
  {
    if |payloads| > 0 {
      ReplayValid(parse, Update(parse, d, payloads[0]), payloads[1..]);
    }
  }
}
