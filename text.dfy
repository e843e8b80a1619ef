/** The JavaScript string primitives the ingestion routine is built from:
    the `/\s/` whitespace class, `String.prototype.trim`, `replace(/\s/g, '')`,
    `split` on a one-character separator, `join`, `filter(l => l.trim())`
    and the decimal rendering of an index in a template literal. */
module Text {

  /** ECMAScript's WhiteSpace and LineTerminator characters: the set that both
      `trim` removes and `/\s/` matches. Among the ASCII characters these
      are exactly the space and the controls tab to carriage return. */
  predicate IsWhitespace(c: char)
    ensures c < '\U{0080}' ==> (IsWhitespace(c) <==> c == ' ' || '\t' <= c <= '\r')
  {
    c == '\t' || c == '\n' || c == '\U{000B}' || c == '\U{000C}' || c == '\r' || c == ' '
    || c == '\U{00A0}' || c == '\U{1680}' || ('\U{2000}' <= c <= '\U{200A}')
    || c == '\U{2028}' || c == '\U{2029}' || c == '\U{202F}' || c == '\U{205F}'
    || c == '\U{3000}' || c == '\U{FEFF}'
  }

  /** Every character is whitespace (the empty string included). */
  predicate IsBlank(s: string) {
    forall i :: 0 <= i < |s| ==> IsWhitespace(s[i])
  }

  /** No character is whitespace. */
  predicate NoWhitespace(s: string) {
    forall i :: 0 <= i < |s| ==> !IsWhitespace(s[i])
  }

  /** Neither end of `s` is whitespace: `trim` leaves it alone. */
  predicate IsTrimmed(s: string) {
    s == [] || (!IsWhitespace(s[0]) && !IsWhitespace(s[|s| - 1]))
  }

  /** The index of the first non-whitespace character at or after `i`, or
      `|s|` when there is none. */
  function SkipWhitespace(s: string, i: nat): (n: nat)
    requires i <= |s|
    ensures i <= n <= |s|
    decreases |s| - i
  {
    if i < |s| && IsWhitespace(s[i]) then SkipWhitespace(s, i + 1) else i
  }

  lemma {:induction false} SkipWhitespaceSpec(s: string, i: nat)
    requires i <= |s|
    ensures var n := SkipWhitespace(s, i);
      (forall k :: i <= k < n ==> IsWhitespace(s[k])) && (n < |s| ==> !IsWhitespace(s[n]))
    decreases |s| - i
  {
    if i < |s| && IsWhitespace(s[i]) { SkipWhitespaceSpec(s, i + 1); }
  }

  /** The index just after the last non-whitespace character before `j`, or
      0 when there is none. */
  function SkipWhitespaceBack(s: string, j: nat): (n: nat)
    requires j <= |s|
    ensures n <= j
  {
    if j > 0 && IsWhitespace(s[j - 1]) then SkipWhitespaceBack(s, j - 1) else j
  }

  lemma {:induction false} SkipWhitespaceBackSpec(s: string, j: nat)
    requires j <= |s|
    ensures var n := SkipWhitespaceBack(s, j);
      (forall k :: n <= k < j ==> IsWhitespace(s[k])) && (n > 0 ==> !IsWhitespace(s[n - 1]))
  {
    if j > 0 && IsWhitespace(s[j - 1]) { SkipWhitespaceBackSpec(s, j - 1); }
  }

  /** `s.trim()`: the part of `s` between its leading and its trailing
      whitespace. */
  function Trim(s: string): (r: string)
    ensures |r| <= |s|
  {
    var i := SkipWhitespace(s, 0);
    var j := SkipWhitespaceBack(s, |s|);
    if j <= i then [] else s[i..j]
  }

  /** What `trim` returns has no whitespace at either end. */
  lemma {:induction false} TrimTrims(s: string)
    ensures IsTrimmed(Trim(s))
  {
    SkipWhitespaceSpec(s, 0);
    SkipWhitespaceBackSpec(s, |s|);
  }

  /** `trim` cuts out an infix of `s` with only whitespace on either side. */
  lemma {:induction false} TrimInfix(s: string)
    ensures var i, r := SkipWhitespace(s, 0), Trim(s);
      i + |r| <= |s| && r == s[i..i + |r|]
      && (forall k :: 0 <= k < i ==> IsWhitespace(s[k]))
      && (forall k :: i + |r| <= k < |s| ==> IsWhitespace(s[k]))
  {
    var i := SkipWhitespace(s, 0);
    var j := SkipWhitespaceBack(s, |s|);
    SkipWhitespaceSpec(s, 0);
    SkipWhitespaceBackSpec(s, |s|);
    if j <= i {
      assert i == |s| by {
        if i < |s| { assert false; }
      }
    }
 }

  /** `trim` leaves nothing exactly when `s` is blank. */
  lemma {:induction false} TrimEmpty(s: string)
    ensures Trim(s) == [] <==> IsBlank(s)
  {
    TrimInfix(s);
    if IsBlank(s) {
      SkipWhitespaceSpec(s, 0);
      assert SkipWhitespace(s, 0) == |s|;
    }
  }

  /** Every character `trim` keeps comes from `s`. */
  lemma {:induction false} TrimChars(s: string, c: char)
    requires c in Trim(s)
    ensures c in s
  {
    TrimInfix(s);
  }

  /** Trimming a string that is already trimmed changes nothing. */
  lemma {:induction false} TrimTrimmed(s: string)
    requires IsTrimmed(s)
    ensures Trim(s) == s
  {
    if s != [] {
      assert SkipWhitespace(s, 0) == 0;
      assert SkipWhitespaceBack(s, |s|) == |s|;
    }
  }

  /** `s.replace(/\s/g, '')`: every whitespace character deleted. */
  function StripWhitespace(s: string): (r: string)
    ensures NoWhitespace(r)
    ensures |r| <= |s|
  {
    if s == [] then []
    else if IsWhitespace(s[0]) then StripWhitespace(s[1..])
    else [s[0]] + StripWhitespace(s[1..])
  }

  /** Every character that survives stripping comes from `s`. */
  lemma {:induction false} StripWhitespaceChars(s: string, c: char)
    requires c in StripWhitespace(s)
    ensures c in s
  {
    if s != [] && c != s[0] {
      StripWhitespaceChars(s[1..], c);
    }
  }

  /** Stripping distributes over concatenation. */
  lemma {:induction false} StripWhitespaceAppend(a: string, b: string)
    ensures StripWhitespace(a + b) == StripWhitespace(a) + StripWhitespace(b)
  {
    if a != [] {
      assert (a + b)[0] == a[0] && (a + b)[1..] == a[1..] + b;
      StripWhitespaceAppend(a[1..], b);
    } else {
      assert a + b == b;
    }
  }

  /** A string without whitespace is its own stripped form. */
  lemma {:induction false} StripWhitespaceNone(s: string)
    requires NoWhitespace(s)
    ensures StripWhitespace(s) == s
  {
    if s != [] { StripWhitespaceNone(s[1..]); }
  }

  /** A blank string strips to nothing. */
  lemma {:induction false} StripWhitespaceBlank(s: string)
    requires IsBlank(s)
    ensures StripWhitespace(s) == []
  {
    if s != [] { StripWhitespaceBlank(s[1..]); }
  }

  /** `parts.join(d)` for a one-character separator. The result is at least
      as long as the first part, and a join whose first part is non-empty
      starts with that part's first character. */
  function Join(parts: seq<string>, d: char): (r: string)
    requires |parts| >= 1
    ensures |r| >= |parts[0]| && (parts[0] != [] ==> r[0] == parts[0][0])
  {
    if |parts| == 1 then parts[0] else parts[0] + [d] + Join(parts[1..], d)
  }

  /** `s.split(d)` for a one-character separator: the maximal runs between
      occurrences of `d`, one more piece than there are separators. */
  function Split(s: string, d: char): (r: seq<string>)
    ensures |r| >= 1
  {
    if s == [] then [[]]
    else
      var rest := Split(s[1..], d);
      if s[0] == d then [[]] + rest
      else [[s[0]] + rest[0]] + rest[1..]
  }

  /** No piece holds the separator, and joining the pieces with it gives the
      string back. */
  lemma {:induction false} SplitSpec(s: string, d: char)
    ensures forall k :: 0 <= k < |Split(s, d)| ==> d !in Split(s, d)[k]
    ensures Join(Split(s, d), d) == s
  {
    if s != [] {
      SplitSpec(s[1..], d);
      var rest := Split(s[1..], d);
      if s[0] == d {
        assert ([[]] + rest)[1..] == rest;
        assert s == [d] + s[1..];
      } else {
        var r := Split(s, d);
        assert r[0] == [s[0]] + rest[0] && r[1..] == rest[1..];
        forall k | 0 <= k < |r| ensures d !in r[k] {
          if k > 0 { assert r[k] == rest[k]; }
        }
        if |rest| == 1 {
          assert Join(r, d) == [s[0]] + rest[0];
        } else {
          assert Join(r, d) == [s[0]] + rest[0] + [d] + Join(rest[1..], d);
          assert Join(rest, d) == rest[0] + [d] + Join(rest[1..], d);
        }
        assert s == [s[0]] + s[1..];
      }
    }
  }

  /** A separator-free prefix glues onto the first piece of what follows it. */
  lemma {:induction false} SplitPrefix(p: string, t: string, d: char)
    requires d !in p
    ensures Split(p + t, d) == [p + Split(t, d)[0]] + Split(t, d)[1..]
  {
    var st := Split(t, d);
    if p == [] {
      assert p + t == t;
      assert p + st[0] == st[0];
    } else {
      assert (p + t)[0] == p[0] && (p + t)[1..] == p[1..] + t;
      SplitPrefix(p[1..], t, d);
      var rest := Split(p[1..] + t, d);
      assert rest[0] == p[1..] + st[0] && rest[1..] == st[1..];
      assert [p[0]] + (p[1..] + st[0]) == p + st[0];
    }
  }

  /** A piece followed by the separator splits off as the first piece. */
  lemma {:induction false} SplitPiece(p: string, t: string, d: char)
    requires d !in p
    ensures Split(p + [d] + t, d) == [p] + Split(t, d)
  {
    var dt := [d] + t;
    assert dt[0] == d && dt[1..] == t;
    assert Split(dt, d) == [[]] + Split(t, d);
    SplitPrefix(p, dt, d);
    assert p + [d] + t == p + dt;
    assert p + [] == p;
  }

  /** `split` undoes `join` when no piece holds the separator. */
  lemma {:induction false} SplitJoin(parts: seq<string>, d: char)
    requires |parts| >= 1
    requires forall k :: 0 <= k < |parts| ==> d !in parts[k]
    ensures Split(Join(parts, d), d) == parts
  {
    if |parts| == 1 {
      SplitPrefix(parts[0], [], d);
      assert parts[0] + [] == parts[0];
    } else {
      SplitJoin(parts[1..], d);
      SplitPiece(parts[0], Join(parts[1..], d), d);
    }
  }

  /** Every character of a piece occurs in the string that was split. */
  lemma {:induction false} JoinContains(parts: seq<string>, d: char, k: nat, c: char)
    requires k < |parts| && c in parts[k]
    ensures c in Join(parts, d)
  {
    if k > 0 { JoinContains(parts[1..], d, k - 1, c); }
  }

  /** `parts.join('')`. */
  function Concat(parts: seq<string>): (r: string)
    ensures parts != [] ==> parts[0] <= r
    ensures (forall k :: 0 <= k < |parts| ==> parts[k] == []) <==> r == []
  {
    if parts == [] then [] else parts[0] + Concat(parts[1..])
  }

  /** Stripping whitespace from lines joined by a whitespace separator is the
      same as stripping them joined by nothing. */
  lemma {:induction false} StripJoinConcat(parts: seq<string>, d: char)
    requires |parts| >= 1 && IsWhitespace(d)
    ensures StripWhitespace(Join(parts, d)) == StripWhitespace(Concat(parts))
  {
    if |parts| == 1 {
      assert Concat(parts) == parts[0] + Concat([]);
      assert parts[0] + [] == parts[0];
    } else {
      StripJoinConcat(parts[1..], d);
      StripWhitespaceAppend(parts[0] + [d], Join(parts[1..], d));
      StripWhitespaceAppend(parts[0], [d]);
      StripWhitespaceAppend(parts[0], Concat(parts[1..]));
      assert StripWhitespace([d]) == [];
    }
  }

  /** `xs.filter(x => x.trim())`: the strings whose trimmed form is not empty. */
  function NonBlank(xs: seq<string>): (r: seq<string>)
    ensures |r| <= |xs|
  {
    if xs == [] then []
    else if Trim(xs[0]) != [] then [xs[0]] + NonBlank(xs[1..])
    else NonBlank(xs[1..])
  }

  /** The filter keeps exactly the strings that are not blank. */
  lemma {:induction false} NonBlankSpec(xs: seq<string>)
    ensures forall k :: 0 <= k < |NonBlank(xs)| ==> !IsBlank(NonBlank(xs)[k])
    ensures forall x :: x in NonBlank(xs) <==> x in xs && !IsBlank(x)
  {
    if xs != [] {
      NonBlankSpec(xs[1..]);
      TrimEmpty(xs[0]);
      assert forall x :: x in xs <==> x == xs[0] || x in xs[1..];
    }
  }

  /** Filtering keeps the relative order of the two halves. */
  lemma {:induction false} NonBlankAppend(xs: seq<string>, ys: seq<string>)
    ensures NonBlank(xs + ys) == NonBlank(xs) + NonBlank(ys)
  {
    if xs == [] {
      assert xs + ys == ys;
    } else {
      var zs := xs + ys;
      assert zs[0] == xs[0] && zs[1..] == xs[1..] + ys;
      NonBlankAppend(xs[1..], ys);
      if Trim(xs[0]) != [] {
        assert NonBlank(zs) == [xs[0]] + (NonBlank(xs[1..]) + NonBlank(ys));
        assert [xs[0]] + (NonBlank(xs[1..]) + NonBlank(ys)) == ([xs[0]] + NonBlank(xs[1..])) + NonBlank(ys);
      } else {
        assert NonBlank(zs) == NonBlank(xs[1..]) + NonBlank(ys);
      }
    }
  }

  /** Filtering a list that has no blank strings changes nothing. */
  lemma {:induction false} NonBlankAllKept(xs: seq<string>)
    requires forall k :: 0 <= k < |xs| ==> !IsBlank(xs[k])
    ensures NonBlank(xs) == xs
  {
    if xs != [] {
      TrimEmpty(xs[0]);
      assert forall k :: 0 <= k < |xs| - 1 ==> xs[1..][k] == xs[k + 1];
      NonBlankAllKept(xs[1..]);
    }
  }

  /** Filtering a list of blank strings leaves nothing. */
  lemma {:induction false} NonBlankAllDropped(xs: seq<string>)
    requires forall k :: 0 <= k < |xs| ==> IsBlank(xs[k])
    ensures NonBlank(xs) == []
  {
    if xs != [] {
      TrimEmpty(xs[0]);
      assert forall k :: 0 <= k < |xs| - 1 ==> xs[1..][k] == xs[k + 1];
      NonBlankAllDropped(xs[1..]);
    }
  }

  function DigitChar(d: nat): char
    requires d < 10
  {
    ('0' as int + d) as char
  }

  /** The decimal rendering of `n` as in a template literal `${n}`. */
  function NatToString(n: nat): (r: string)
    ensures |r| >= 1
    ensures forall k :: 0 <= k < |r| ==> '0' <= r[k] <= '9'
    ensures r[0] == '0' ==> n == 0
  {
    if n < 10 then [DigitChar(n)] else NatToString(n / 10) + [DigitChar(n % 10)]
  }

  /** The value of a string of decimal digits, read left to right. */
  function DecimalValue(s: string): nat
    requires forall k :: 0 <= k < |s| ==> '0' <= s[k] <= '9'
  {
    if s == [] then 0 else 10 * DecimalValue(s[..|s| - 1]) + (s[|s| - 1] as int - '0' as int)
  }

  /** Reading the decimal rendering of `n` gives back `n`. */
  lemma {:induction false} DecimalRoundTrip(n: nat)
    ensures DecimalValue(NatToString(n)) == n
  {
    if n >= 10 {
      DecimalRoundTrip(n / 10);
      var s := NatToString(n);
      assert s[..|s| - 1] == NatToString(n / 10);
    }
  }

  /** Different numbers render differently. */
  lemma {:induction false} NatToStringInjective(m: nat, n: nat)
    requires NatToString(m) == NatToString(n)
    ensures m == n
  {
    DecimalRoundTrip(m);
    DecimalRoundTrip(n);
  }
}
