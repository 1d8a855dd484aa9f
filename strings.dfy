/**
 * The PHP string built-ins Patrol relies on: explode with a one-character separator, implode,
 * rtrim of one character, str_replace of one character, str_pad to the right, and the decimal
 * rendering of integers.
 */
module Strings {

  /** explode($sep, $s): the pieces of `s` between the occurrences of `sep`. */
  function Split(s: string, sep: char): (pieces: seq<string>)
    ensures |pieces| >= 1
    ensures forall i | 0 <= i < |pieces| :: sep !in pieces[i]
    decreases |s|
  {
    if s == [] then [""]
    else
      var rest := Split(s[1..], sep);
      if s[0] == sep then [""] + rest
      else [[s[0]] + rest[0]] + rest[1..]
  }

  /** implode($sep, $pieces): the pieces with `sep` between consecutive ones. */
  function Join(pieces: seq<string>, sep: string): string
  {
    if pieces == [] then ""
    else if |pieces| == 1 then pieces[0]
    else pieces[0] + sep + Join(pieces[1..], sep)
  }

  /** Where piece i starts in a join: the length of the pieces before it, each with a separator. */
  function JoinOffset(pieces: seq<string>, sep: string, i: nat): nat
    requires i <= |pieces|
  {
    if i == 0 then 0 else JoinOffset(pieces, sep, i - 1) + |pieces[i - 1]| + |sep|
  }

  /**
   * `r` is laid out as the join of `pieces` on `sep`: each piece at its offset, the separator
   * after every piece but the last, and nothing after the last piece.
   */
  predicate JoinedAs(r: string, pieces: seq<string>, sep: string)
    requires pieces != []
  {
    && |r| == JoinOffset(pieces, sep, |pieces| - 1) + |pieces[|pieces| - 1]|
    && (forall i | 0 <= i < |pieces| :: PieceAt(r, pieces, sep, i))
    && (forall i | 0 <= i < |pieces| - 1 :: SepAfter(r, pieces, sep, i))
  }

  /** Piece i of `pieces` occupies `r` from its offset on. */
  predicate PieceAt(r: string, pieces: seq<string>, sep: string, i: nat)
    requires i < |pieces|
  {
    var o := JoinOffset(pieces, sep, i);
    o + |pieces[i]| <= |r| && r[o..o + |pieces[i]|] == pieces[i]
  }

  /** `sep` follows piece i of `pieces` in `r`. */
  predicate SepAfter(r: string, pieces: seq<string>, sep: string, i: nat)
    requires i < |pieces|
  {
    var e := JoinOffset(pieces, sep, i) + |pieces[i]|;
    e + |sep| <= |r| && r[e..e + |sep|] == sep
  }

  /** Dropping the first piece moves every later offset back by that piece and one separator. */
  lemma {:induction false} JoinOffsetShift(pieces: seq<string>, sep: string, i: nat)
    requires 0 < i <= |pieces|
    ensures JoinOffset(pieces, sep, i) == |pieces[0]| + |sep| + JoinOffset(pieces[1..], sep, i - 1)
  {
    if i > 1 {
      JoinOffsetShift(pieces, sep, i - 1);
    }
  }

  /** The i-th piece sits at its offset in the join. */
  lemma {:induction false} JoinPieceAt(pieces: seq<string>, sep: string, i: nat)
    requires i < |pieces|
    ensures PieceAt(Join(pieces, sep), pieces, sep, i)
  {
    if |pieces| > 1 {
      var tail := pieces[1..];
      var t := Join(tail, sep);
      var r := Join(pieces, sep);
      assert r == pieces[0] + sep + t;
      if i > 0 {
        JoinPieceAt(tail, sep, i - 1);
        JoinOffsetShift(pieces, sep, i);
        var base, o := |pieces[0]| + |sep|, JoinOffset(tail, sep, i - 1);
        assert tail[i - 1] == pieces[i];
        assert r[base + o..base + o + |pieces[i]|] == t[o..o + |pieces[i]|];
      }
    }
  }

  /** The separator follows every piece but the last. */
  lemma {:induction false} JoinSepAt(pieces: seq<string>, sep: string, i: nat)
    requires i + 1 < |pieces|
    ensures SepAfter(Join(pieces, sep), pieces, sep, i)
  {
    var tail := pieces[1..];
    var t := Join(tail, sep);
    var r := Join(pieces, sep);
    assert r == pieces[0] + sep + t;
    if i > 0 {
      JoinSepAt(tail, sep, i - 1);
      JoinOffsetShift(pieces, sep, i);
      var base, o := |pieces[0]| + |sep|, JoinOffset(tail, sep, i - 1);
      assert tail[i - 1] == pieces[i];
      assert r[base + o + |pieces[i]|..base + o + |pieces[i]| + |sep|] == t[o + |pieces[i]|..o + |pieces[i]| + |sep|];
    }
  }

  /** Nothing follows the last piece. */
  lemma {:induction false} JoinLength(pieces: seq<string>, sep: string)
    requires pieces != []
    ensures |Join(pieces, sep)| == JoinOffset(pieces, sep, |pieces| - 1) + |pieces[|pieces| - 1]|
  {
    if |pieces| > 1 {
      JoinLength(pieces[1..], sep);
      JoinOffsetShift(pieces, sep, |pieces| - 1);
    }
  }

  /** A join of at least one piece, on any separator, is laid out piece by piece. */
  lemma JoinLayout(pieces: seq<string>, sep: string)
    ensures pieces != [] ==> JoinedAs(Join(pieces, sep), pieces, sep)
  {
    if pieces != [] {
      JoinLength(pieces, sep);
      forall i | 0 <= i < |pieces| {
        JoinPieceAt(pieces, sep, i);
      }
      forall i | 0 <= i < |pieces| - 1 {
        JoinSepAt(pieces, sep, i);
      }
    }
  }

  /** Joining the pieces of a split with the separator gives back the original string. */
  lemma {:induction false} JoinSplit(s: string, sep: char)
    ensures Join(Split(s, sep), [sep]) == s
  {
    if s != [] {
      JoinSplit(s[1..], sep);
      var rest := Split(s[1..], sep);
      if s[0] == sep {
        assert ([""] + rest)[1..] == rest;
        assert s == [sep] + s[1..];
      } else {
        var pieces := [[s[0]] + rest[0]] + rest[1..];
        assert pieces[1..] == rest[1..];
        if |rest| == 1 {
          assert s == [s[0]] + s[1..];
        } else {
          assert Join(rest, [sep]) == rest[0] + [sep] + Join(rest[1..], [sep]);
          assert s == [s[0]] + s[1..];
        }
      }
    }
  }

  /** Splitting `p + t` where `p` holds no separator extends the first piece of `t` by `p`. */
  lemma {:induction false} SplitPrefix(p: string, t: string, sep: char)
    requires sep !in p
    ensures Split(p + t, sep) == [p + Split(t, sep)[0]] + Split(t, sep)[1..]
    decreases |p|
  {
    if p != [] {
      assert (p + t)[1..] == p[1..] + t;
      assert (p + t)[0] == p[0] && p[0] != sep;
      SplitPrefix(p[1..], t, sep);
      var rest := Split(p[1..] + t, sep);
      assert Split(p + t, sep) == [[p[0]] + rest[0]] + rest[1..];
      assert [p[0]] + (p[1..] + Split(t, sep)[0]) == p + Split(t, sep)[0];
    } else {
      assert p + t == t;
      assert p + Split(t, sep)[0] == Split(t, sep)[0];
      assert Split(t, sep) == [Split(t, sep)[0]] + Split(t, sep)[1..];
    }
  }

  /** Splitting a join of separator-free pieces gives back the pieces. */
  lemma {:induction false} SplitJoin(pieces: seq<string>, sep: char)
    requires |pieces| >= 1
    requires forall i | 0 <= i < |pieces| :: sep !in pieces[i]
    ensures Split(Join(pieces, [sep]), sep) == pieces
  {
    if |pieces| == 1 {
      SplitPrefix(pieces[0], "", sep);
      assert pieces[0] + "" == pieces[0];
    } else {
      var tail := Join(pieces[1..], [sep]);
      assert Join(pieces, [sep]) == pieces[0] + [sep] + tail;
      SplitJoin(pieces[1..], sep);
      assert ([sep] + tail)[0] == sep && ([sep] + tail)[1..] == tail;
      assert Split([sep] + tail, sep) == [""] + pieces[1..];
      SplitPrefix(pieces[0], [sep] + tail, sep);
      assert pieces[0] + [sep] + tail == pieces[0] + ([sep] + tail);
      assert pieces[0] + "" == pieces[0];
      assert pieces == [pieces[0]] + pieces[1..];
    }
  }

  /** explode(' ', $line)[0]: the text of `line` before its first space. */
  function FirstToken(line: string): (token: string)
    ensures token <= line
    ensures ' ' !in token
    ensures |token| == |line| || line[|token|] == ' '
  {
    FirstPiece(line, ' ');
    Split(line, ' ')[0]
  }

  /** The first piece of a split is the longest prefix that holds no separator. */
  lemma {:induction false} FirstPiece(s: string, sep: char)
    ensures Split(s, sep)[0] <= s
    ensures |Split(s, sep)[0]| == |s| || s[|Split(s, sep)[0]|] == sep
    decreases |s|
  {
    if s != [] && s[0] != sep {
      FirstPiece(s[1..], sep);
    }
  }

  /** rtrim($s, $c): `s` without its trailing run of `c`. */
  function RTrim(s: string, c: char): (r: string)
    ensures r <= s
    ensures r == [] || r[|r| - 1] != c
    ensures forall i | |r| <= i < |s| :: s[i] == c
    decreases |s|
  {
    if s == [] || s[|s| - 1] != c then s else RTrim(s[..|s| - 1], c)
  }

  /** str_replace($from, $to, $s) for single characters. */
  function ReplaceChar(s: string, from: char, to: char): (r: string)
    ensures |r| == |s|
    ensures forall i | 0 <= i < |s| :: r[i] == (if s[i] == from then to else s[i])
  {
    seq(|s|, i requires 0 <= i < |s| => if s[i] == from then to else s[i])
  }

  /** A run of `n` spaces. */
  function Spaces(n: nat): (r: string)
    ensures |r| == n && forall i | 0 <= i < n :: r[i] == ' '
  {
    seq(n, i => ' ')
  }

  /** str_pad($s, $width): `s` followed by spaces up to `width` characters. */
  function PadRight(s: string, width: nat): (r: string)
    ensures s <= r
    ensures |r| == if |s| < width then width else |s|
    ensures forall i | |s| <= i < |r| :: r[i] == ' '
  {
    if |s| < width then s + Spaces(width - |s|) else s
  }

  predicate IsDigit(c: char) {
    '0' <= c <= '9'
  }

  function DigitChar(d: nat): (c: char)
    requires d < 10
    ensures IsDigit(c) && c as int - '0' as int == d
  {
    ('0' as int + d) as char
  }

  /** The decimal rendering PHP gives a non-negative integer in string context. */
  function NatToString(n: nat): (s: string)
    ensures |s| >= 1
    ensures forall i | 0 <= i < |s| :: IsDigit(s[i])
    decreases n
  {
    if n < 10 then [DigitChar(n)] else NatToString(n / 10) + [DigitChar(n % 10)]
  }

  /** The decimal rendering of any integer. */
  function IntToString(i: int): (s: string)
    ensures |s| >= 1
  {
    if i < 0 then "-" + NatToString(-i) else NatToString(i)
  }

  /** The number a string of digits denotes. */
  function DecimalValue(s: string): nat
    requires forall i | 0 <= i < |s| :: IsDigit(s[i])
  {
    if s == [] then 0
    else
      assert IsDigit(s[|s| - 1]);
      DecimalValue(s[..|s| - 1]) * 10 + (s[|s| - 1] as int - '0' as int)
  }

  /** Reading back the decimal rendering of `n` gives `n`: no two counts print alike. */
  lemma {:induction false} DecimalRoundTrip(n: nat)
    ensures DecimalValue(NatToString(n)) == n
    decreases n
  {
    if n >= 10 {
      DecimalRoundTrip(n / 10);
      var s := NatToString(n);
      assert s[..|s| - 1] == NatToString(n / 10);
    }
  }
}
