/** The part of Go's `strings` package that the blocklist parsers use, over
    strings modelled as sequences of code points. */
module Strings {

  /** Go's `unicode.IsSpace`: the Latin-1 spaces plus Unicode's White_Space
      property, which is what `strings.TrimSpace` trims. */
  predicate IsSpace(c: char) {
    || c == '\t' || c == '\n' || c == '\U{000B}' || c == '\U{000C}' || c == '\r' || c == ' '
    || c == '\U{0085}' || c == '\U{00A0}' || c == '\U{1680}'
    || ('\U{2000}' <= c <= '\U{200A}')
    || c == '\U{2028}' || c == '\U{2029}' || c == '\U{202F}' || c == '\U{205F}' || c == '\U{3000}'
  }

  predicate AllSpace(s: string) {
    forall k :: 0 <= k < |s| ==> IsSpace(s[k])
  }

  lemma AllSpaceConcat(a: string, b: string)
    requires AllSpace(a) && AllSpace(b)
    ensures AllSpace(a + b)
  {
  }

  predicate HasPrefix(s: string, prefix: string) {
    prefix <= s
  }

  predicate HasSuffix(s: string, suffix: string) {
    |suffix| <= |s| && s[|s| - |suffix|..] == suffix
  }

  /** `strings.TrimPrefix`: removes `prefix` once if `s` starts with it. */
  function TrimPrefix(s: string, prefix: string): (r: string)
    ensures HasPrefix(s, prefix) ==> prefix + r == s
    ensures !HasPrefix(s, prefix) ==> r == s
  {
    if HasPrefix(s, prefix) then s[|prefix|..] else s
  }

  /** `strings.TrimSuffix`: removes `suffix` once if `s` ends with it. */
  function TrimSuffix(s: string, suffix: string): (r: string)
    ensures HasSuffix(s, suffix) ==> r + suffix == s
    ensures !HasSuffix(s, suffix) ==> r == s
  {
    if HasSuffix(s, suffix) then s[..|s| - |suffix|] else s
  }

  /** Drops the leading run of spaces. */
  function TrimLeftSpace(s: string): string
    decreases |s|
  {
    if |s| > 0 && IsSpace(s[0]) then TrimLeftSpace(s[1..]) else s
  }

  /** Drops the trailing run of spaces. */
  function TrimRightSpace(s: string): string
    decreases |s|
  {
    if |s| > 0 && IsSpace(s[|s| - 1]) then TrimRightSpace(s[..|s| - 1]) else s
  }

  /** `strings.TrimSpace`: drops the leading and the trailing run of spaces. */
  function TrimSpace(s: string): string {
    TrimRightSpace(TrimLeftSpace(s))
  }

  /** `TrimLeftSpace` leaves the longest suffix of `s` that does not start
      with a space, having dropped only spaces. */
  lemma {:induction false} TrimLeftSpaceSpec(s: string)
    ensures var r := TrimLeftSpace(s);
      && |r| <= |s| && r == s[|s| - |r|..]
      && AllSpace(s[..|s| - |r|])
      && (r == [] || !IsSpace(r[0]))
    decreases |s|
  {
    if |s| > 0 && IsSpace(s[0]) {
      TrimLeftSpaceSpec(s[1..]);
      var r := TrimLeftSpace(s);
      assert s[1..][..|s| - 1 - |r|] == s[1..|s| - |r|];
    }
  }

  /** `TrimRightSpace` leaves the longest prefix of `s` that does not end
      with a space, having dropped only spaces. */
  lemma {:induction false} TrimRightSpaceSpec(s: string)
    ensures var r := TrimRightSpace(s);
      && |r| <= |s| && r == s[..|r|]
      && AllSpace(s[|r|..])
      && (r == [] || !IsSpace(r[|r| - 1]))
    decreases |s|
  {
    if |s| > 0 && IsSpace(s[|s| - 1]) {
      TrimRightSpaceSpec(s[..|s| - 1]);
      var r := TrimRightSpace(s);
      assert s[|r|..] == s[..|s| - 1][|r|..] + [s[|s| - 1]];
    }
  }

  /** What `TrimSpace` leaves: the part of `s` between a leading and a
      trailing run of spaces, with neither end a space, and empty exactly
      when `s` is all spaces. */
  lemma TrimSpaceSpec(s: string)
    ensures var r := TrimSpace(s);
      && (r == [] || (!IsSpace(r[0]) && !IsSpace(r[|r| - 1])))
      && (r == [] <==> AllSpace(s))
      && exists i :: 0 <= i <= |s| - |r| && s[i..i + |r|] == r && AllSpace(s[..i]) && AllSpace(s[i + |r|..])
  {
    var l := TrimLeftSpace(s);
    TrimLeftSpaceSpec(s);
    var r := TrimRightSpace(l);
    TrimRightSpaceSpec(l);
    var i := |s| - |l|;
    assert s[i..] == l;
    assert s[i..i + |r|] == r;
    assert s[i + |r|..] == l[|r|..];
    if r == [] {
      assert l[|r|..] == l;
      AllSpaceConcat(s[..i], l);
      assert s[..i] + l == s;
    }
    if l != [] {
      assert !IsSpace(s[i]);
    }
  }

  /** Trimming adds no characters. */
  lemma TrimSpaceKeeps(s: string, c: char)
    requires c !in s
    ensures c !in TrimSpace(s)
  {
    var l := TrimLeftSpace(s);
    TrimLeftSpaceSpec(s);
    assert c !in l;
    TrimRightSpaceSpec(l);
  }

  /** A string whose ends are not spaces is left alone by `TrimSpace`. */
  lemma TrimSpaceNoop(s: string)
    requires |s| > 0 && !IsSpace(s[0]) && !IsSpace(s[|s| - 1])
    ensures TrimSpace(s) == s
  {
  }

  /** The position of the first `c` in `s` (`strings.IndexByte` when it finds one). */
  function IndexOf(s: string, c: char): (i: nat)
    requires c in s
    ensures i < |s| && s[i] == c && c !in s[..i]
  {
    if s[0] == c then 0 else 1 + IndexOf(s[1..], c)
  }

  /** `strings.Split(s, sep)` for a one-character separator. */
  function Split(s: string, sep: char): (parts: seq<string>)
    ensures |parts| >= 1
    decreases |s|
  {
    if |s| == 0 then [""]
    else
      var rest := Split(s[1..], sep);
      if s[0] == sep then [""] + rest
      else [[s[0]] + rest[0]] + rest[1..]
  }

  /** No piece of a split contains the separator. */
  lemma {:induction false} SplitPiecesLackSep(s: string, sep: char)
    ensures forall i :: 0 <= i < |Split(s, sep)| ==> sep !in Split(s, sep)[i]
    decreases |s|
  {
    if |s| > 0 {
      SplitPiecesLackSep(s[1..], sep);
      var rest := Split(s[1..], sep);
      if s[0] != sep {
        assert sep !in [s[0]] + rest[0];
      }
    }
  }

  /** A string with n separators splits into n + 1 pieces. */
  lemma {:induction false} SplitCount(s: string, sep: char)
    ensures |Split(s, sep)| == multiset(s)[sep] + 1
    decreases |s|
  {
    if |s| > 0 {
      SplitCount(s[1..], sep);
      assert s == [s[0]] + s[1..];
    }
  }

  /** `strings.Join(parts, string(sep))`. */
  function Join(parts: seq<string>, sep: char): string
    decreases |parts|
  {
    if |parts| == 0 then ""
    else if |parts| == 1 then parts[0]
    else parts[0] + [sep] + Join(parts[1..], sep)
  }

  /** Joining two or more pieces puts the first piece and a separator in
      front of the join of the rest. */
  lemma JoinCons(parts: seq<string>, sep: char)
    requires |parts| >= 2
    ensures Join(parts, sep) == parts[0] + [sep] + Join(parts[1..], sep)
  {
  }

  /** Joining the pieces of a split gives back the original string. */
  lemma {:induction false} JoinSplit(s: string, sep: char)
    ensures Join(Split(s, sep), sep) == s
    decreases |s|
  {
    if |s| > 0 {
      JoinSplit(s[1..], sep);
      var rest := Split(s[1..], sep);
      assert s == [s[0]] + s[1..];
      if s[0] == sep {
        assert Split(s, sep) == [""] + rest;
        assert Join(Split(s, sep), sep) == "" + [sep] + Join(rest, sep);
      } else if |rest| == 1 {
        assert Split(s, sep) == [[s[0]] + rest[0]];
      } else {
        assert Join(rest, sep) == rest[0] + [sep] + Join(rest[1..], sep);
        var head := [s[0]] + rest[0];
        assert Split(s, sep) == [head] + rest[1..];
        assert Join(Split(s, sep), sep) == head + [sep] + Join(rest[1..], sep);
      }
    }
  }

  /** Splitting pieces that were joined gives back the pieces. */
  lemma {:induction false} SplitJoin(parts: seq<string>, sep: char)
    requires |parts| >= 1
    requires forall i :: 0 <= i < |parts| ==> sep !in parts[i]
    ensures Split(Join(parts, sep), sep) == parts
    decreases |parts|
  {
    if |parts| == 1 {
      SplitNoSep(parts[0], sep);
    } else {
      SplitJoin(parts[1..], sep);
      SplitNoSep(parts[0], sep);
      SplitConcat(parts[0], Join(parts[1..], sep), sep);
      assert parts == [parts[0]] + parts[1..];
    }
  }

  /** A string without the separator is a single piece. */
  lemma {:induction false} SplitNoSep(s: string, sep: char)
    requires sep !in s
    ensures Split(s, sep) == [s]
    decreases |s|
  {
    if |s| > 0 {
      assert sep !in s[1..];
      SplitNoSep(s[1..], sep);
      assert s == [s[0]] + s[1..];
    }
  }

  /** Splitting at one separator occurrence splits the two sides independently. */
  lemma {:induction false} SplitConcat(x: string, t: string, sep: char)
    ensures Split(x + [sep] + t, sep) == Split(x, sep) + Split(t, sep)
    decreases |x|
  {
    var s := x + [sep] + t;
    if |x| == 0 {
      assert s == [sep] + t;
      assert s[1..] == t;
    } else {
      assert s[1..] == x[1..] + [sep] + t;
      SplitConcat(x[1..], t, sep);
    }
  }

  /** The second piece of a split: the text between the first separator, at
      `p`, and the next separator or the end, at `q`. */
  lemma SecondPiece(t: string, sep: char, p: nat, q: nat)
    requires p < q <= |t| && t[p] == sep && sep !in t[..p] && sep !in t[p + 1..q]
    requires q == |t| || t[q] == sep
    ensures |Split(t, sep)| >= 2 && Split(t, sep)[1] == t[p + 1..q]
  {
    var u := t[p + 1..];
    assert Split(t, sep) == [t[..p]] + Split(u, sep) by {
      assert t == t[..p] + [sep] + u;
      SplitConcat(t[..p], u, sep);
      SplitNoSep(t[..p], sep);
    }
    assert Split(u, sep)[0] == t[p + 1..q] by {
      if q == |t| {
        SplitNoSep(u, sep);
      } else {
        var w := t[p + 1..q];
        assert u == w + [sep] + t[q + 1..];
        SplitConcat(w, t[q + 1..], sep);
        SplitNoSep(w, sep);
      }
    }
  }

  /** Joining two non-empty lists of pieces puts one separator between them. */
  lemma {:induction false} JoinAppend(a: seq<string>, b: seq<string>, sep: char)
    requires |a| >= 1 && |b| >= 1
    ensures Join(a + b, sep) == Join(a, sep) + [sep] + Join(b, sep)
    decreases |a|
  {
    if |a| == 1 {
      assert (a + b)[1..] == b;
    } else {
      assert (a + b)[1..] == a[1..] + b;
      JoinAppend(a[1..], b, sep);
    }
  }

  /** A string that contains the separator splits into at least two pieces. */
  lemma SplitHasTwo(s: string, sep: char)
    requires sep in s
    ensures |Split(s, sep)| >= 2
  {
    var i := IndexOf(s, sep);
    assert s == s[..i] + [sep] + s[i + 1..];
    SplitConcat(s[..i], s[i + 1..], sep);
  }

  /** The join of two or more pieces contains the separator. */
  lemma JoinHasSep(parts: seq<string>, sep: char)
    requires |parts| >= 2
    ensures sep in Join(parts, sep)
  {
    var j := Join(parts, sep);
    assert j[|parts[0]|] == sep;
  }
}
