/**
 * The ECMAScript string built-ins the deck cards rely on:
 * `String.prototype.split` with a one-character separator,
 * `Array.prototype.join` (its inverse) and `String.prototype.trim`.
 */
module JsString {

  /** The code points `trim` removes: ECMAScript WhiteSpace (TAB, VT, FF,
      ZWNBSP and every Zs space) and LineTerminator (LF, CR, LS, PS). */
  predicate IsTrimmable(c: char) {
    c == '\t' || c == '\n' || c == '\U{000B}' || c == '\U{000C}' || c == '\r'
    || c == ' ' || c == '\U{00A0}' || c == '\U{1680}'
    || ('\U{2000}' <= c <= '\U{200A}')
    || c == '\U{2028}' || c == '\U{2029}' || c == '\U{202F}' || c == '\U{205F}'
    || c == '\U{3000}' || c == '\U{FEFF}'
  }

  predicate AllTrimmable(s: string) {
    forall i :: 0 <= i < |s| ==> IsTrimmable(s[i])
  }

  /** `s.split(sep)`: the maximal runs between separators, in order; the
      empty string splits into one empty part. */
  function Split(s: string, sep: char): (parts: seq<string>)
    ensures |parts| >= 1
    ensures forall i :: 0 <= i < |parts| ==> sep !in parts[i]
  {
    if s == [] then [""]
    else
      var rest := Split(s[1..], sep);
      if s[0] == sep then [""] + rest
      else [[s[0]] + rest[0]] + rest[1..]
  }

  /** `parts.join(sep)`. */
  function Join(parts: seq<string>, sep: char): string {
    if parts == [] then ""
    else if |parts| == 1 then parts[0]
    else parts[0] + [sep] + Join(parts[1..], sep)
  }

  /** Splitting and re-joining gives back the original string. */
  lemma {:induction false} JoinSplit(s: string, sep: char)
    ensures Join(Split(s, sep), sep) == s
  {
    if s != [] {
      var rest := Split(s[1..], sep);
      JoinSplit(s[1..], sep);
      if s[0] == sep {
        assert Split(s, sep) == [""] + rest;
        assert ([""] + rest)[1..] == rest;
      } else {
        var parts := Split(s, sep);
        assert parts == [[s[0]] + rest[0]] + rest[1..];
        if |rest| == 1 {
          assert Join(rest, sep) == rest[0];
        } else {
          assert Join(rest, sep) == rest[0] + [sep] + Join(rest[1..], sep);
          assert parts[1..] == rest[1..];
        }
      }
    }
  }

  /** Joining separator-free parts and splitting again gives back the parts. */
  lemma {:induction false} SplitJoin(parts: seq<string>, sep: char)
    requires |parts| >= 1
    requires forall i :: 0 <= i < |parts| ==> sep !in parts[i]
    ensures Split(Join(parts, sep), sep) == parts
  {
    if |parts| == 1 {
      SplitSeparatorFree(parts[0], sep, []);
      assert parts[0] + [] == parts[0];
      var r := Split(parts[0], sep);
      assert |r| == 1 && r[0] == parts[0];
    } else {
      var tail := parts[1..];
      SplitJoin(tail, sep);
      SplitSeparatorFree(parts[0], sep, [sep] + Join(tail, sep));
      assert parts[0] + [sep] + Join(tail, sep) == parts[0] + ([sep] + Join(tail, sep));
      var x := [sep] + Join(tail, sep);
      assert x[0] == sep && x[1..] == Join(tail, sep);
      assert Split(x, sep) == [""] + tail;
      var r := Split(parts[0] + x, sep);
      assert r[0] == parts[0] && r[1..] == tail;
      assert r == [r[0]] + r[1..];
      assert parts == [parts[0]] + tail;
    }
  }

  /** A separator-free prefix becomes the front of the first part. */
  lemma {:induction false} SplitSeparatorFree(w: string, sep: char, t: string)
    requires sep !in w
    requires t == [] || t[0] == sep
    ensures var r := Split(w + t, sep);
      var rt := Split(t, sep);
      |r| == |rt| && r[0] == w + rt[0] && r[1..] == rt[1..]
  {
    if w != [] {
      SplitSeparatorFree(w[1..], sep, t);
      assert (w + t)[1..] == w[1..] + t;
      assert (w + t)[0] == w[0];
    } else {
      assert w + t == t;
    }
  }

  /** One part per separator, plus one. */
  lemma {:induction false} SplitCount(s: string, sep: char)
    ensures |Split(s, sep)| == multiset(s)[sep] + 1
  {
    if s != [] {
      SplitCount(s[1..], sep);
      assert s == [s[0]] + s[1..];
      assert multiset(s) == multiset{s[0]} + multiset(s[1..]);
    }
  }

  /** `split` returns the string unchanged, as its only part, exactly when it
      holds no separator. */
  lemma SplitSingle(s: string, sep: char)
    ensures |Split(s, sep)| == 1 <==> sep !in s
    ensures sep !in s ==> Split(s, sep) == [s]
  {
    SplitCount(s, sep);
    if sep !in s {
      JoinSplit(s, sep);
      assert Join(Split(s, sep), sep) == Split(s, sep)[0];
    }
  }

  /** How many trimmable characters `s` starts with. */
  function LeadingTrimmable(s: string): (n: nat)
    ensures n <= |s|
  {
    if s != [] && IsTrimmable(s[0]) then 1 + LeadingTrimmable(s[1..]) else 0
  }

  /** How many trimmable characters `s` ends with. */
  function TrailingTrimmable(s: string): (n: nat)
    ensures n <= |s|
  {
    if s != [] && IsTrimmable(s[|s| - 1]) then 1 + TrailingTrimmable(s[..|s| - 1]) else 0
  }

  /** `s.trim()`: the leading trimmable characters go, then the trailing
      ones of what is left. */
  function Trim(s: string): (r: string)
    ensures |r| <= |s|
  {
    var t := s[LeadingTrimmable(s)..];
    t[..|t| - TrailingTrimmable(t)]
  }

  lemma {:induction false} LeadingSpec(s: string)
    ensures AllTrimmable(s[..LeadingTrimmable(s)])
    ensures LeadingTrimmable(s) < |s| ==> !IsTrimmable(s[LeadingTrimmable(s)])
  {
    if s != [] && IsTrimmable(s[0]) {
      LeadingSpec(s[1..]);
      assert s[..LeadingTrimmable(s)] == [s[0]] + s[1..][..LeadingTrimmable(s[1..])];
    }
  }

  lemma {:induction false} TrailingSpec(s: string)
    ensures AllTrimmable(s[|s| - TrailingTrimmable(s)..])
    ensures TrailingTrimmable(s) < |s| ==> !IsTrimmable(s[|s| - 1 - TrailingTrimmable(s)])
  {
    if s != [] && IsTrimmable(s[|s| - 1]) {
      var p := s[..|s| - 1];
      TrailingSpec(p);
      assert s[|s| - TrailingTrimmable(s)..] == p[|p| - TrailingTrimmable(p)..] + [s[|s| - 1]];
    }
  }

  /** A string with no trimmable character at its ends. */
  predicate Trimmed(m: string) {
    m == [] || (!IsTrimmable(m[0]) && !IsTrimmable(m[|m| - 1]))
  }

  /** `trim` keeps a contiguous middle of its input and removes only
      trimmable characters around it. */
  lemma TrimIsMiddle(s: string) returns (i: nat)
    ensures i + |Trim(s)| <= |s| && Trim(s) == s[i..i + |Trim(s)|]
    ensures AllTrimmable(s[..i]) && AllTrimmable(s[i + |Trim(s)|..])
  {
    i := LeadingTrimmable(s);
    var t := s[i..];
    var j := TrailingTrimmable(t);
    LeadingSpec(s);
    TrailingSpec(t);
    assert Trim(s) == s[i..|s| - j];
    assert t[|t| - j..] == s[|s| - j..];
  }

  /** What `trim` keeps has no trimmable character at either end. */
  lemma TrimIsTrimmed(s: string)
    ensures Trimmed(Trim(s))
  {
    var i := LeadingTrimmable(s);
    var t := s[i..];
    var j := TrailingTrimmable(t);
    LeadingSpec(s);
    TrailingSpec(t);
    var r := Trim(s);
    if r != [] {
      assert r[0] == s[i];
      assert r[|r| - 1] == t[|t| - 1 - j];
    }
  }

  lemma {:induction false} LeadingOfPadded(a: string, t: string)
    requires AllTrimmable(a)
    requires t == [] || !IsTrimmable(t[0])
    ensures LeadingTrimmable(a + t) == |a|
  {
    if a == [] {
      assert a + t == t;
    } else {
      assert (a + t)[0] == a[0];
      assert (a + t)[1..] == a[1..] + t;
      LeadingOfPadded(a[1..], t);
    }
  }

  lemma {:induction false} TrailingOfPadded(t: string, b: string)
    requires AllTrimmable(b)
    requires t == [] || !IsTrimmable(t[|t| - 1])
    ensures TrailingTrimmable(t + b) == |b|
  {
    if b == [] {
      assert t + b == t;
    } else {
      var n := |t + b|;
      assert (t + b)[n - 1] == b[|b| - 1];
      assert (t + b)[..n - 1] == t + b[..|b| - 1];
      TrailingOfPadded(t, b[..|b| - 1]);
    }
  }

  /** `trim` is characterised by its result alone: whatever trimmable
      padding surrounds an already-trimmed string, `trim` recovers it. */
  lemma TrimOfPadded(a: string, m: string, b: string)
    requires AllTrimmable(a) && AllTrimmable(b) && Trimmed(m)
    ensures Trim(a + m + b) == m
  {
    var s := a + m + b;
    if m == [] {
      assert s == a + b + [];
      assert AllTrimmable(a + b);
      LeadingOfPadded(a + b, []);
      assert s[|s|..] == [];
    } else {
      assert s == a + (m + b);
      LeadingOfPadded(a, m + b);
      assert s[|a|..] == m + b;
      TrailingOfPadded(m, b);
      assert (m + b)[..|m|] == m;
    }
  }

  /** Trimming twice is trimming once. */
  lemma TrimIdempotent(s: string)
    ensures Trim(Trim(s)) == Trim(s)
  {
    var m := Trim(s);
    TrimIsTrimmed(s);
    assert [] + m + [] == m;
    TrimOfPadded([], m, []);
  }
}
