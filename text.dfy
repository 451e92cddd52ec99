/** Sequence and string helpers: the Ruby core behaviour the modelled code
    leans on (`Array#-`, `Array#select`, `Array#join`, `String#split`,
    `String#downcase`, `String#strip`, `Integer#to_s`, the `$` anchor of a
    regular expression), each with the property the rest of the model uses. */
module Text {

  datatype Option<+T> = None | Some(value: T)

  datatype Result<+T, +E> = Ok(value: T) | Err(error: E)

  predicate Distinct<T(==)>(s: seq<T>) {
    forall i, j :: 0 <= i < j < |s| ==> s[i] != s[j]
  }

  /** `b` is made of some of `a`'s elements, kept in `a`'s order. */
  predicate SubsequenceOf<T(==)>(b: seq<T>, a: seq<T>)
    decreases |a|
  {
    if b == [] then true
    else if a == [] then false
    else if b[0] == a[0] then SubsequenceOf(b[1..], a[1..])
    else SubsequenceOf(b, a[1..])
  }

  // ---------------------------------------------------------------------
  // Array difference and selection
  // ---------------------------------------------------------------------

  /** Ruby's `a - b`: the elements of `a` that do not occur in `b`, in the
      order they have in `a`. */
  function Minus(a: seq<string>, b: seq<string>): (r: seq<string>)
    ensures forall x :: x in r <==> x in a && x !in b
  {
    if a == [] then []
    else if a[0] in b then Minus(a[1..], b)
    else [a[0]] + Minus(a[1..], b)
  }

  /** Ruby's `a.select { |x| b.include?(x) }`: the elements of `a` that also
      occur in `b`, in the order they have in `a`. */
  function Keep(a: seq<string>, b: seq<string>): (r: seq<string>)
    ensures forall x :: x in r <==> x in a && x in b
  {
    if a == [] then []
    else if a[0] !in b then Keep(a[1..], b)
    else [a[0]] + Keep(a[1..], b)
  }

  /** The difference keeps `a`'s order and, for distinct `a`, has no repeats. */
  lemma {:induction false} MinusOrdered(a: seq<string>, b: seq<string>)
    ensures SubsequenceOf(Minus(a, b), a)
    ensures Distinct(a) ==> Distinct(Minus(a, b))
  {
    if a != [] {
      MinusOrdered(a[1..], b);
      var rest := Minus(a[1..], b);
      assert Distinct(a) ==> a[0] !in a[1..];
      if a[0] !in b {
        assert ([a[0]] + rest)[1..] == rest;
      } else if rest != [] {
        assert rest[0] !in b;
      }
    }
  }

  /** The selection keeps `a`'s order and, for distinct `a`, has no repeats. */
  lemma {:induction false} KeepOrdered(a: seq<string>, b: seq<string>)
    ensures SubsequenceOf(Keep(a, b), a)
    ensures Distinct(a) ==> Distinct(Keep(a, b))
  {
    if a != [] {
      KeepOrdered(a[1..], b);
      var rest := Keep(a[1..], b);
      assert Distinct(a) ==> a[0] !in a[1..];
      if a[0] in b {
        assert ([a[0]] + rest)[1..] == rest;
      }
    }
  }

  /** Selection and difference split `a` between them: every element of `a`
      lands in exactly one of the two, as often as it occurs in `a`. */
  lemma {:induction false} KeepMinusPartition(a: seq<string>, b: seq<string>)
    ensures multiset(Keep(a, b)) + multiset(Minus(a, b)) == multiset(a)
  {
    if a != [] {
      KeepMinusPartition(a[1..], b);
      assert a == [a[0]] + a[1..];
    }
  }

  // ---------------------------------------------------------------------
  // Join and split
  // ---------------------------------------------------------------------

  /** Ruby's `parts.join(sep)`. */
  function Join(parts: seq<string>, sep: string): string {
    if |parts| == 0 then ""
    else if |parts| == 1 then parts[0]
    else parts[0] + sep + Join(parts[1..], sep)
  }

  /** Every field between the separators `c`, empty fields included (so
      there is always one more field than there are separators). */
  function Split(s: string, c: char): (r: seq<string>)
    ensures |r| >= 1
    ensures forall i :: 0 <= i < |r| ==> c !in r[i]
  {
    if s == [] then [""]
    else
      var rest := Split(s[1..], c);
      if s[0] == c then [""] + rest else [[s[0]] + rest[0]] + rest[1..]
  }

  lemma {:induction false} JoinSplit(s: string, c: char)
    ensures Join(Split(s, c), [c]) == s
  {
    if s != [] {
      var rest := Split(s[1..], c);
      JoinSplit(s[1..], c);
      if s[0] == c {
        assert ([""] + rest)[1..] == rest;
      } else {
        var r := [[s[0]] + rest[0]] + rest[1..];
        if |rest| == 1 {
          assert Join(r, [c]) == [s[0]] + rest[0];
        } else {
          assert r[1..] == rest[1..];
          assert Join(rest, [c]) == rest[0] + [c] + Join(rest[1..], [c]);
          assert Join(r, [c]) == [s[0]] + rest[0] + [c] + Join(rest[1..], [c]);
        }
      }
    }
  }

  /** A field without the separator, followed by the separator, splits off
      as one field. */
  lemma {:induction false} SplitAfterField(x: string, y: string, c: char)
    requires c !in x
    ensures Split(x + [c] + y, c) == [x] + Split(y, c)
  {
    if x == [] {
      assert [c] + y == ([] + [c] + y);
      assert ([c] + y)[1..] == y;
    } else {
      assert (x + [c] + y)[1..] == x[1..] + [c] + y;
      SplitAfterField(x[1..], y, c);
      assert [x[0]] + x[1..] == x;
    }
  }

  lemma {:induction false} SplitNoSeparator(x: string, c: char)
    requires c !in x
    ensures Split(x, c) == [x]
  {
    if x != [] {
      SplitNoSeparator(x[1..], c);
      assert [x[0]] + x[1..] == x;
    }
  }

  /** Splitting undoes joining, as long as no field holds the separator. */
  lemma {:induction false} SplitJoin(parts: seq<string>, c: char)
    requires |parts| >= 1
    requires forall i :: 0 <= i < |parts| ==> c !in parts[i]
    ensures Split(Join(parts, [c]), c) == parts
  {
    if |parts| == 1 {
      SplitNoSeparator(parts[0], c);
    } else {
      SplitJoin(parts[1..], c);
      SplitAfterField(parts[0], Join(parts[1..], [c]), c);
      assert [parts[0]] + parts[1..] == parts;
    }
  }

  /** Ruby's `String#split` drops the empty fields at the end of the list. */
  function DropTrailingEmpty(fields: seq<string>): (r: seq<string>)
    ensures |r| <= |fields| && r == fields[..|r|]
    ensures forall i :: |r| <= i < |fields| ==> fields[i] == ""
    ensures r == [] || r[|r| - 1] != ""
  {
    if fields == [] then []
    else if fields[|fields| - 1] == "" then DropTrailingEmpty(fields[..|fields| - 1])
    else fields
  }

  /** Ruby's `s.split(c)` for a one-character, non-blank separator. */
  function RubySplit(s: string, c: char): seq<string> {
    DropTrailingEmpty(Split(s, c))
  }

  /** Ruby's `fields[n]` on the result of a split, with `nil` interpolated as
      the empty string. */
  function FieldOrEmpty(fields: seq<string>, n: nat): string {
    if n < |fields| then fields[n] else ""
  }

  /** Dropping trailing empty fields never changes what `fields[n]`
      interpolates to. */
  lemma DropTrailingEmptyKeepsFields(fields: seq<string>, n: nat)
    ensures FieldOrEmpty(DropTrailingEmpty(fields), n) == FieldOrEmpty(fields, n)
  {
    var r := DropTrailingEmpty(fields);
    if n < |r| {
      assert r[n] == fields[..|r|][n];
    }
  }

  // ---------------------------------------------------------------------
  // Case, suffixes and line ends
  // ---------------------------------------------------------------------

  /** `String#downcase`, on the ASCII letters. */
  function Lower(c: char): char {
    if 'A' <= c <= 'Z' then (c as int - 'A' as int + 'a' as int) as char else c
  }

  function Downcase(s: string): (r: string)
    ensures |r| == |s|
    ensures forall i :: 0 <= i < |s| ==> r[i] == Lower(s[i])
  {
    if s == [] then [] else [Lower(s[0])] + Downcase(s[1..])
  }

  lemma {:induction false} DowncaseAppend(a: string, b: string)
    ensures Downcase(a + b) == Downcase(a) + Downcase(b)
  {
    var l, r := Downcase(a + b), Downcase(a) + Downcase(b);
    assert |l| == |r|;
    forall i | 0 <= i < |l| ensures l[i] == r[i] {
      if i < |a| { assert (a + b)[i] == a[i]; } else { assert (a + b)[i] == b[i - |a|]; }
    }
  }

  predicate EndsWith(s: string, w: string) {
    |w| <= |s| && s[|s| - |w|..] == w
  }

  /** Ruby's `s =~ /w$/` for a literal `w`: `$` matches at the end of the
      string and also just before every line feed, so `w` may end any line. */
  predicate LineEndsWith(s: string, w: string) {
    EndsWith(s, w) || exists k :: 0 <= k < |s| && s[k] == '\n' && EndsWith(s[..k], w)
  }

  lemma LineEndsWithOneLine(s: string, w: string)
    requires '\n' !in s
    ensures LineEndsWith(s, w) <==> EndsWith(s, w)
  {
    forall k | 0 <= k < |s| ensures s[k] != '\n' {
      assert s[k] in s;
    }
  }

  // ---------------------------------------------------------------------
  // Strip
  // ---------------------------------------------------------------------

  /** The characters `String#strip` removes: null, tab, line feed, vertical
      tab, form feed, carriage return and space. */
  predicate IsSpace(c: char) {
    c == '\0' || c == '\t' || c == '\n' || c == '\U{B}' || c == '\U{C}' || c == '\r' || c == ' '
  }

  /** Every character of `s` is blank. */
  predicate AllBlank(s: string) {
    forall i :: 0 <= i < |s| ==> IsSpace(s[i])
  }

  /** Leading blanks removed: what is left is a suffix of `s`, starts with a
      character that is not blank, and only blanks were removed. */
  function TrimStart(s: string): (r: string)
    ensures |r| <= |s| && r == s[|s| - |r|..]
    ensures r == [] || !IsSpace(r[0])
    ensures AllBlank(s[..|s| - |r|])
  {
    if s != [] && IsSpace(s[0]) then
      var r := TrimStart(s[1..]);
      assert s[..|s| - |r|] == [s[0]] + s[1..][..|s| - 1 - |r|];
      r
    else s
  }

  /** Trailing blanks removed: what is left is a prefix of `s`, ends with a
      character that is not blank, and only blanks were removed. */
  function TrimEnd(s: string): (r: string)
    ensures |r| <= |s| && r == s[..|r|]
    ensures r == [] || !IsSpace(r[|r| - 1])
    ensures AllBlank(s[|r|..])
  {
    if s != [] && IsSpace(s[|s| - 1]) then
      var r := TrimEnd(s[..|s| - 1]);
      assert s[|r|..] == s[..|s| - 1][|r|..] + [s[|s| - 1]];
      r
    else s
  }

  /** Ruby's `String#strip`: the slice of `s` left after removing blank
      characters at both ends; what was removed is blank. */
  function Strip(s: string): (r: string)
    ensures var i := |s| - |TrimStart(s)|;
      && i + |r| <= |s| && r == s[i..i + |r|]
      && AllBlank(s[..i]) && AllBlank(s[i + |r|..])
    ensures r == [] || (!IsSpace(r[0]) && !IsSpace(r[|r| - 1]))
  {
    var t := TrimStart(s);
    var r := TrimEnd(t);
    SuffixSlices(s, |s| - |t|, |r|);
    r
  }

  lemma SuffixSlices(s: string, i: nat, n: nat)
    requires i + n <= |s|
    ensures s[i..][..n] == s[i..i + n] && s[i..][n..] == s[i + n..]
  {
  }

  // ---------------------------------------------------------------------
  // Integers as decimal text
  // ---------------------------------------------------------------------

  predicate IsDigit(c: char) { '0' <= c <= '9' }

  predicate AllDigits(s: string) {
    forall i :: 0 <= i < |s| ==> IsDigit(s[i])
  }

  function DigitChar(d: nat): (c: char)
    requires d < 10
    ensures IsDigit(c)
  {
    ('0' as int + d) as char
  }

  function DigitValue(c: char): (d: nat)
    requires IsDigit(c)
    ensures d < 10
  {
    c as int - '0' as int
  }

  /** `Integer#to_s` for a non-negative integer: decimal, no leading zero. */
  function NatToString(n: nat): (r: string)
    ensures |r| >= 1 && AllDigits(r)
    ensures r[0] == '0' ==> n == 0
  {
    if n < 10 then [DigitChar(n)] else NatToString(n / 10) + [DigitChar(n % 10)]
  }

  function ParseNat(s: string): nat
    requires AllDigits(s)
  {
    if s == [] then 0 else ParseNat(s[..|s| - 1]) * 10 + DigitValue(s[|s| - 1])
  }

  lemma {:induction false} ParseNatToString(n: nat)
    ensures ParseNat(NatToString(n)) == n
  {
    var r := NatToString(n);
    if n >= 10 {
      ParseNatToString(n / 10);
      assert r[..|r| - 1] == NatToString(n / 10);
    }
  }

  /** `Integer#to_s`: a minus sign before the digits of a negative number. */
  function IntToString(i: int): string {
    if i < 0 then "-" + NatToString(-i) else NatToString(i)
  }

  function ParseInt(s: string): Option<int> {
    if |s| > 1 && s[0] == '-' && AllDigits(s[1..]) then
      var magnitude: int := ParseNat(s[1..]);
      Some(-magnitude)
    else if |s| > 0 && AllDigits(s) then Some(ParseNat(s))
    else None
  }

  lemma IntToStringRoundTrip(i: int)
    ensures ParseInt(IntToString(i)) == Some(i)
  {
    if i < 0 {
      var d := NatToString(-i);
      var s := "-" + d;
      assert s[0] == '-' && s[1..] == d;
      ParseNatToString(-i);
    } else {
      var s := NatToString(i);
      assert IsDigit(s[0]);
      ParseNatToString(i);
    }
  }
}
