/** `word_wrap` (lib/hygroscope/cli.rb): `string.scan(/.{length}|.+/)` cuts
    the text into pieces of at most `length` characters, each piece is
    stripped, and the pieces are joined with `delim`. */
module WordWrap {
  import opened Text

  /** The defaults of `word_wrap`: 80 columns, joined with `$/`. */
  const DefaultLength: nat := 80
  const DefaultDelim := "\n"

  /** How many characters come before the first line feed. */
  function LineRun(s: string): (n: nat)
    ensures n <= |s|
    ensures forall i :: 0 <= i < n ==> s[i] != '\n'
    ensures n == |s| || s[n] == '\n'
  {
    if s == [] || s[0] == '\n' then 0 else 1 + LineRun(s[1..])
  }

  /** What `scan(/.{length}|.+/)` returns for a positive `length`. `.` never
      matches a line feed, so a line feed is skipped; elsewhere the first
      alternative takes `length` characters when the line has that many
      left, and otherwise `.+` takes the rest of the line. */
  function Pieces(s: string, length: nat): (r: seq<string>)
    requires length > 0
    ensures forall i :: 0 <= i < |r| ==> 0 < |r[i]| <= length && '\n' !in r[i]
    decreases |s|
  {
    if s == [] then []
    else if s[0] == '\n' then Pieces(s[1..], length)
    else
      var n := if LineRun(s) < length then LineRun(s) else length;
      assert forall i :: 0 <= i < n ==> s[..n][i] != '\n';
      [s[..n]] + Pieces(s[n..], length)
  }

  /** `map { |x| x.strip }` */
  function StripEach(pieces: seq<string>): (r: seq<string>)
    ensures |r| == |pieces|
    ensures forall i :: 0 <= i < |r| ==> r[i] == Strip(pieces[i])
  {
    seq(|pieces|, i requires 0 <= i < |pieces| => Strip(pieces[i]))
  }

  /** `word_wrap(string, length, delim)`. With a zero length `.{0}` matches
      the empty string at every position, so the result is one empty piece
      per position, `|string| + 1` of them. */
  function Wrap(s: string, length: nat, delim: string): string {
    if length == 0 then Join(seq(|s| + 1, _ => ""), delim)
    else Join(StripEach(Pieces(s, length)), delim)
  }

  /** `word_wrap(string)` with the defaults. */
  function WrapDefault(s: string): string {
    Wrap(s, DefaultLength, DefaultDelim)
  }

  function Concat(parts: seq<string>): string {
    if parts == [] then "" else parts[0] + Concat(parts[1..])
  }

  function WithoutLineFeeds(s: string): (r: string)
    ensures '\n' !in s ==> r == s
  {
    if s == [] then ""
    else
      assert s == [s[0]] + s[1..];
      (if s[0] == '\n' then "" else [s[0]]) + WithoutLineFeeds(s[1..])
  }

  lemma {:induction false} WithoutLineFeedsAppend(a: string, b: string)
    ensures WithoutLineFeeds(a + b) == WithoutLineFeeds(a) + WithoutLineFeeds(b)
  {
    if a != [] {
      assert (a + b)[1..] == a[1..] + b;
      WithoutLineFeedsAppend(a[1..], b);
    } else {
      assert a + b == b;
    }
  }

  /** The pieces are the text, in order, with nothing lost but line feeds. */
  lemma {:induction false} PiecesCoverText(s: string, length: nat)
    requires length > 0
    ensures Concat(Pieces(s, length)) == WithoutLineFeeds(s)
    decreases |s|
  {
    if s != [] {
      if s[0] == '\n' {
        PiecesCoverText(s[1..], length);
      } else {
        var n := if LineRun(s) < length then LineRun(s) else length;
        var head, tail := s[..n], s[n..];
        PiecesCoverText(tail, length);
        assert s == head + tail;
        WithoutLineFeedsAppend(head, tail);
        assert '\n' !in head by {
          forall i | 0 <= i < n ensures head[i] != '\n' { }
        }
        var r := [head] + Pieces(tail, length);
        assert r[0] == head && r[1..] == Pieces(tail, length);
        calc {
          Concat(Pieces(s, length));
          Concat(r);
          head + Concat(Pieces(tail, length));
          WithoutLineFeeds(head) + WithoutLineFeeds(tail);
          WithoutLineFeeds(s);
        }
      }
    }
  }

  lemma {:induction false} OneLineRun(s: string)
    requires '\n' !in s
    ensures LineRun(s) == |s|
  {
    if s != [] {
      assert s == [s[0]] + s[1..];
      OneLineRun(s[1..]);
    }
  }

  /** On one line, every piece but the last is exactly `length` long, so
      the pieces are the text cut every `length` characters. */
  lemma {:induction false} OneLinePiecesAreFull(s: string, length: nat)
    requires length > 0 && '\n' !in s
    ensures var r := Pieces(s, length);
      forall i :: 0 <= i < |r| - 1 ==> |r[i]| == length
    decreases |s|
  {
    if s != [] {
      OneLineRun(s);
      assert s == [s[0]] + s[1..];
      var n := if |s| < length then |s| else length;
      assert s == s[..n] + s[n..];
      OneLinePiecesAreFull(s[n..], length);
      assert n < length ==> s[n..] == [];
      var r := [s[..n]] + Pieces(s[n..], length);
      assert r[1..] == Pieces(s[n..], length);
    }
  }

  lemma StripBlankFree(p: string)
    requires forall i :: 0 <= i < |p| ==> !IsSpace(p[i])
    ensures Strip(p) == p
  {
    assert 0 < |p| ==> !IsSpace(p[0]) && !IsSpace(p[|p| - 1]);
    assert TrimStart(p) == p;
    assert TrimEnd(p) == p;
  }

  /** Text with no blank characters at all wraps into the text itself, cut
      every `length` characters with `delim` between the cuts: stripping
      changes nothing and nothing is lost. */
  lemma BlankFreeWrap(s: string, length: nat, delim: string)
    requires length > 0
    requires forall i :: 0 <= i < |s| ==> !IsSpace(s[i])
    ensures Wrap(s, length, delim) == Join(Pieces(s, length), delim)
    ensures Concat(Pieces(s, length)) == s
    ensures forall i :: 0 <= i < |Pieces(s, length)| - 1 ==> |Pieces(s, length)[i]| == length
  {
    assert '\n' !in s by {
      forall i | 0 <= i < |s| ensures s[i] != '\n' { assert !IsSpace(s[i]); }
    }
    PiecesCoverText(s, length);
    OneLinePiecesAreFull(s, length);
    var ps := Pieces(s, length);
    BlankFreePieces(s, length);
    forall i | 0 <= i < |ps| ensures Strip(ps[i]) == ps[i] {
      StripBlankFree(ps[i]);
    }
    assert StripEach(ps) == ps;
  }

  /** With the defaults, a text without blanks becomes lines of 80
      characters, the last one possibly shorter, one per line feed. */
  lemma DefaultWrapLines(s: string)
    requires forall i :: 0 <= i < |s| ==> !IsSpace(s[i])
    ensures WrapDefault(s) == Join(Pieces(s, 80), "\n")
    ensures Concat(Pieces(s, 80)) == s
    ensures forall i :: 0 <= i < |Pieces(s, 80)| ==> |Pieces(s, 80)[i]| <= 80
    ensures forall i :: 0 <= i < |Pieces(s, 80)| - 1 ==> |Pieces(s, 80)[i]| == 80
  {
    BlankFreeWrap(s, DefaultLength, DefaultDelim);
  }

  /** Every piece is a stretch of the text, so blank-free text gives
      blank-free pieces. */
  lemma {:induction false} BlankFreePieces(s: string, length: nat)
    requires length > 0
    requires forall i :: 0 <= i < |s| ==> !IsSpace(s[i])
    ensures forall k, i :: 0 <= k < |Pieces(s, length)| && 0 <= i < |Pieces(s, length)[k]|
                           ==> !IsSpace(Pieces(s, length)[k][i])
    decreases |s|
  {
    if s != [] {
      assert !IsSpace(s[0]);
      var n := if LineRun(s) < length then LineRun(s) else length;
      BlankFreePieces(s[n..], length);
      var r := [s[..n]] + Pieces(s[n..], length);
      assert r[1..] == Pieces(s[n..], length);
    }
  }

  /** `d` repeated `n` times. */
  function Repeat(d: string, n: nat): string {
    if n == 0 then "" else d + Repeat(d, n - 1)
  }

  /** With a zero length the result is `delim` once per character. */
  lemma ZeroLengthWrap(s: string, delim: string)
    ensures Wrap(s, 0, delim) == Repeat(delim, |s|)
  {
    EmptyPiecesJoin(|s|, delim);
  }

  lemma {:induction false} EmptyPiecesJoin(n: nat, delim: string)
    ensures Join(seq(n + 1, _ => ""), delim) == Repeat(delim, n)
  {
    if n > 0 {
      EmptyPiecesJoin(n - 1, delim);
      var e := seq(n + 1, _ => "");
      assert e[1..] == seq(n, _ => "");
      assert Join(e, delim) == "" + delim + Join(e[1..], delim);
    }
  }
}
