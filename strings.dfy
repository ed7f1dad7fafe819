/**
 * The handful of Python `str` built-ins that the linter relies on, written out
 * over `seq<char>`: `str.isspace`, `str.split(sep)`, `str.split()`,
 * `str.lstrip()`, `str.startswith`, ASCII `str.lower()` and `"%d" % n`.
 */
module Strings {

  /** Python's `str.isspace` for one character (the characters Python treats as whitespace). */
  predicate IsSpace(c: char)
  {
    ('\t' <= c <= '\r') || ('\U{1C}' <= c <= '\U{1F}') || c == ' ' || c == '\U{85}' || c == '\U{A0}'
    || c == '\U{1680}' || ('\U{2000}' <= c <= '\U{200A}') || c == '\U{2028}' || c == '\U{2029}'
    || c == '\U{202F}' || c == '\U{205F}' || c == '\U{3000}'
  }

  /** Number of occurrences of `c` in `s`. */
  function CountChar(s: string, c: char): (n: nat)
    ensures n <= |s|
    ensures n == 0 <==> c !in s
  {
    if s == [] then 0 else (if s[0] == c then 1 else 0) + CountChar(s[1..], c)
  }

  lemma {:induction false} CountCharAppend(a: string, b: string, c: char)
    ensures CountChar(a + b, c) == CountChar(a, c) + CountChar(b, c)
  {
    if a == [] {
      assert a + b == b;
    } else {
      assert (a + b)[1..] == a[1..] + b;
      CountCharAppend(a[1..], b, c);
    }
  }

  /** `s.startswith(prefix)`. */
  predicate StartsWith(s: string, prefix: string)
  {
    |prefix| <= |s| && s[..|prefix|] == prefix
  }

  /** `s.split(sep)` for a one-character separator: the pieces between separators, always one more than separators. */
  function SplitOn(s: string, sep: char): (pieces: seq<string>)
    ensures |pieces| == CountChar(s, sep) + 1
  {
    if s == [] then [""]
    else
      var rest := SplitOn(s[1..], sep);
      if s[0] == sep then [""] + rest
      else [[s[0]] + rest[0]] + rest[1..]
  }

  /** No piece of `s.split(sep)` holds the separator. */
  lemma {:induction false} SplitPiecesFree(s: string, sep: char)
    ensures forall k :: 0 <= k < |SplitOn(s, sep)| ==> sep !in SplitOn(s, sep)[k]
  {
    if s != [] {
      SplitPiecesFree(s[1..], sep);
      var rest := SplitOn(s[1..], sep);
      if s[0] != sep {
        assert sep !in [s[0]] + rest[0];
        assert forall k :: 1 <= k < |rest| ==> SplitOn(s, sep)[k] == rest[k];
      }
    }
  }

  /** `sep.join(pieces)`. */
  function JoinWith(pieces: seq<string>, sep: char): string
  {
    if pieces == [] then ""
    else if |pieces| == 1 then pieces[0]
    else pieces[0] + [sep] + JoinWith(pieces[1..], sep)
  }

  /** Splitting and joining again gives back the text: no character is lost or invented by `split`. */
  lemma {:induction false} JoinSplit(s: string, sep: char)
    ensures JoinWith(SplitOn(s, sep), sep) == s
  {
    if s != [] {
      var rest := SplitOn(s[1..], sep);
      JoinSplit(s[1..], sep);
      if s[0] == sep {
        assert SplitOn(s, sep) == [""] + rest;
        assert ([""] + rest)[1..] == rest;
      } else {
        var pieces := [[s[0]] + rest[0]] + rest[1..];
        assert SplitOn(s, sep) == pieces;
        if |rest| == 1 {
          assert JoinWith(rest, sep) == rest[0];
        } else {
          assert pieces[1..] == rest[1..];
          assert JoinWith(rest, sep) == rest[0] + [sep] + JoinWith(rest[1..], sep);
        }
      }
    }
  }

  /**
   * A character that is not the separator lies in the piece numbered by the
   * separators before it: piece k of `s.split(sep)` is line k + 1 when `sep` is a newline.
   */
  lemma {:induction false} SplitPieceHolds(s: string, sep: char, pos: nat)
    requires pos < |s| && s[pos] != sep
    ensures CountChar(s[..pos], sep) < |SplitOn(s, sep)|
    ensures s[pos] in SplitOn(s, sep)[CountChar(s[..pos], sep)]
  {
    if pos == 0 {
      assert s[..0] == [];
      assert s[0] in SplitOn(s, sep)[0];
    } else {
      SplitPieceHolds(s[1..], sep, pos - 1);
      assert s[1..][pos - 1] == s[pos];
      var k := CountChar(s[1..][..pos - 1], sep);
      var n := (if s[0] == sep then 1 else 0) + k;
      CountFirst(s, sep, pos);
      assert CountChar(s[..pos], sep) == n;
      PieceAfterFirst(s, sep, k, s[pos]);
      assert s[pos] in SplitOn(s, sep)[n];
    }
  }

  /** The separators before `pos` are those before `pos - 1` in the tail, plus the first character if it is one. */
  lemma CountFirst(s: string, sep: char, pos: nat)
    requires 0 < pos <= |s|
    ensures CountChar(s[..pos], sep) == (if s[0] == sep then 1 else 0) + CountChar(s[1..][..pos - 1], sep)
  {
    assert s[..pos] == [s[0]] + s[1..][..pos - 1];
    CountCharAppend([s[0]], s[1..][..pos - 1], sep);
  }

  /** Piece `k` of the tail's split is within the matching piece of the whole split. */
  lemma PieceAfterFirst(s: string, sep: char, k: nat, c: char)
    requires s != [] && k < |SplitOn(s[1..], sep)| && c in SplitOn(s[1..], sep)[k]
    ensures (if s[0] == sep then 1 else 0) + k < |SplitOn(s, sep)|
    ensures c in SplitOn(s, sep)[(if s[0] == sep then 1 else 0) + k]
  {
    var rest := SplitOn(s[1..], sep);
    if s[0] == sep {
      assert SplitOn(s, sep)[k + 1] == rest[k];
    } else if k == 0 {
      assert SplitOn(s, sep)[0] == [s[0]] + rest[0];
    } else {
      assert SplitOn(s, sep)[k] == rest[k];
    }
  }

  /** `s.lstrip()`: drops the leading whitespace. */
  function LStrip(s: string): (r: string)
    ensures |r| <= |s| && r == s[|s| - |r|..]
    ensures forall k :: 0 <= k < |s| - |r| ==> IsSpace(s[k])
    ensures r == [] || !IsSpace(r[0])
  {
    if s != [] && IsSpace(s[0]) then LStrip(s[1..]) else s
  }

  /** The longest prefix of `s` free of whitespace. */
  function TokenPrefix(s: string): (t: string)
    ensures t <= s
    ensures forall k :: 0 <= k < |t| ==> !IsSpace(t[k])
    ensures |t| == |s| || IsSpace(s[|t|])
  {
    if s == [] || IsSpace(s[0]) then [] else [s[0]] + TokenPrefix(s[1..])
  }

  /** `s.split()`: the maximal runs of non-whitespace characters, in order. */
  function Words(s: string): (ws: seq<string>)
    decreases |s|
  {
    if s == [] then []
    else if IsSpace(s[0]) then Words(s[1..])
    else
      var t := TokenPrefix(s);
      [t] + Words(s[|t|..])
  }

  /** Every word of `s.split()` is a non-empty run of non-whitespace characters. */
  lemma {:induction false} WordsAreTokens(s: string)
    ensures forall k :: 0 <= k < |Words(s)| ==> Words(s)[k] != [] && forall j :: 0 <= j < |Words(s)[k]| ==> !IsSpace(Words(s)[k][j])
    decreases |s|
  {
    if s != [] {
      if IsSpace(s[0]) {
        WordsAreTokens(s[1..]);
      } else {
        var t := TokenPrefix(s);
        WordsAreTokens(s[|t|..]);
        assert Words(s) == [t] + Words(s[|t|..]);
      }
    }
  }

  /** `s.split()` has a first element when `s` holds some non-whitespace character. */
  lemma {:induction false} WordsNonEmpty(s: string, c: char)
    requires c in s && !IsSpace(c)
    ensures |Words(s)| > 0
  {
    if IsSpace(s[0]) {
      assert c in s[1..];
      WordsNonEmpty(s[1..], c);
    }
  }

  /** The first word of `ws + tok + rest` is `tok` when `ws` is blank and `tok` ends at whitespace or the end. */
  lemma {:induction false} FirstWord(ws: string, tok: string, rest: string)
    requires forall k :: 0 <= k < |ws| ==> IsSpace(ws[k])
    requires tok != [] && forall k :: 0 <= k < |tok| ==> !IsSpace(tok[k])
    requires rest == [] || IsSpace(rest[0])
    ensures |Words(ws + tok + rest)| > 0 && Words(ws + tok + rest)[0] == tok
  {
    if ws == [] {
      assert ws + tok + rest == tok + rest;
      TokenOf(tok, rest);
    } else {
      assert (ws + tok + rest)[1..] == ws[1..] + tok + rest;
      FirstWord(ws[1..], tok, rest);
    }
  }

  lemma {:induction false} TokenOf(tok: string, rest: string)
    requires forall k :: 0 <= k < |tok| ==> !IsSpace(tok[k])
    requires rest == [] || IsSpace(rest[0])
    ensures TokenPrefix(tok + rest) == tok
  {
    if tok != [] {
      assert (tok + rest)[1..] == tok[1..] + rest;
      TokenOf(tok[1..], rest);
    } else {
      assert tok + rest == rest;
    }
  }

  /** ASCII part of `str.lower()`. */
  function LowerChar(c: char): (d: char)
    ensures 'A' <= c <= 'Z' ==> 'a' <= d <= 'z'
    ensures !('A' <= c <= 'Z') ==> d == c
  {
    if 'A' <= c <= 'Z' then (c as int - 'A' as int + 'a' as int) as char else c
  }

  function Lower(s: string): (r: string)
    ensures |r| == |s| && forall k :: 0 <= k < |s| ==> r[k] == LowerChar(s[k])
  {
    if s == [] then [] else [LowerChar(s[0])] + Lower(s[1..])
  }

  predicate IsDigit(c: char)
  {
    '0' <= c <= '9'
  }

  /** `"%d" % n` for a natural number: its decimal digits without leading zeros. */
  function NatToString(n: nat): (s: string)
    ensures s != [] && forall k :: 0 <= k < |s| ==> IsDigit(s[k])
    ensures |s| > 1 ==> s[0] != '0'
  {
    if n < 10 then [('0' as int + n) as char]
    else NatToString(n / 10) + [('0' as int + n % 10) as char]
  }

  /** Reads a string of decimal digits back as a number. */
  function ParseNat(s: string): nat
    requires forall k :: 0 <= k < |s| ==> IsDigit(s[k])
  {
    if s == [] then 0
    else
      var d := s[|s| - 1];
      assert IsDigit(d);
      10 * ParseNat(s[..|s| - 1]) + (d as int - '0' as int)
  }

  /** The decimal rendering used in messages is faithful: reading it back gives the number. */
  lemma {:induction false} ParseNatToString(n: nat)
    ensures ParseNat(NatToString(n)) == n
  {
    var s := NatToString(n);
    if n >= 10 {
      assert s[..|s| - 1] == NatToString(n / 10);
      ParseNatToString(n / 10);
    }
  }

  /** Distinct numbers are rendered differently, so a message pins down the numbers it was built from. */
  lemma NatToStringInjective(m: nat, n: nat)
    requires NatToString(m) == NatToString(n)
    ensures m == n
  {
    ParseNatToString(m);
    ParseNatToString(n);
  }
}
