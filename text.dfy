/**
  The pieces of Python's string behaviour that the size rotator relies on:
  `str.split` with a one-character separator, the substring test `needle in hay`,
  `os.path.basename` on POSIX paths, `int(text)` in base 10 and `str(n)`.
 */
module Text {
  import opened Wrappers

  // ---------------------------------------------------------------------------
  // Counting and splitting

  /** Number of occurrences of `c` in `s`. */
  function Count(s: string, c: char): nat
  {
    if |s| == 0 then 0
    else (if s[0] == c then 1 else 0) + Count(s[1..], c)
  }

  /** The inverse of `Split`: Python's `sep.join(pieces)`. */
  function Join(pieces: seq<string>, sep: char): string
  {
    if |pieces| == 0 then ""
    else if |pieces| == 1 then pieces[0]
    else pieces[0] + [sep] + Join(pieces[1..], sep)
  }

  /**
    Python's `s.split(sep)` for a one-character separator; it never yields an empty
    list. `SplitPieces` says what the pieces are, and `SplitJoinsBack` and `SplitJoin`
    show that it is the inverse of `Join`.
   */
  function Split(s: string, sep: char): (pieces: seq<string>)
    ensures |pieces| >= 1
  {
    if |s| == 0 then [""]
    else
      var rest := Split(s[1..], sep);
      if s[0] == sep then [""] + rest
      else [[s[0]] + rest[0]] + rest[1..]
  }

  /** There are several pieces exactly when the separator occurs, and no piece holds it. */
  lemma {:induction false} SplitPieces(s: string, sep: char)
    ensures |Split(s, sep)| > 1 <==> sep in s
    ensures forall i :: 0 <= i < |Split(s, sep)| ==> sep !in Split(s, sep)[i]
  {
    if |s| > 0 {
      SplitPieces(s[1..], sep);
      var rest := Split(s[1..], sep);
      if s[0] != sep {
        assert sep !in [s[0]] + rest[0];
        assert forall i :: 1 <= i < |Split(s, sep)| ==> Split(s, sep)[i] == rest[i];
        if sep in s {
          assert sep in s[1..];
        }
      }
    }
  }

  /** Joining the pieces back gives the text, and there is one piece more than separators. */
  lemma {:induction false} SplitJoinsBack(s: string, sep: char)
    ensures Join(Split(s, sep), sep) == s
    ensures |Split(s, sep)| == Count(s, sep) + 1
  {
    if |s| > 0 {
      var rest := Split(s[1..], sep);
      SplitJoinsBack(s[1..], sep);
      if s[0] != sep && |rest| > 1 {
        assert Join(rest, sep) == rest[0] + [sep] + Join(rest[1..], sep);
        assert Split(s, sep)[1..] == rest[1..];
      }
    }
  }

  /** A text without the separator is a single piece. */
  lemma {:induction false} SplitWithoutSeparator(a: string, sep: char)
    requires sep !in a
    ensures Split(a, sep) == [a]
  {
    if |a| > 0 {
      SplitWithoutSeparator(a[1..], sep);
      assert [a[0]] + a[1..] == a;
    }
  }

  /** Splitting `a + sep + b`, with no separator in `a`, yields `a` and then the pieces of `b`. */
  lemma {:induction false} SplitAfterFirst(a: string, sep: char, b: string)
    requires sep !in a
    ensures Split(a + [sep] + b, sep) == [a] + Split(b, sep)
  {
    var s := a + [sep] + b;
    if |a| == 0 {
      assert s[1..] == b;
    } else {
      assert s[1..] == a[1..] + [sep] + b;
      SplitAfterFirst(a[1..], sep, b);
      assert [a[0]] + a[1..] == a;
    }
  }

  /** `Split` undoes `Join` for any non-empty list of separator-free pieces. */
  lemma {:induction false} SplitJoin(pieces: seq<string>, sep: char)
    requires |pieces| >= 1
    requires forall i :: 0 <= i < |pieces| ==> sep !in pieces[i]
    ensures Split(Join(pieces, sep), sep) == pieces
  {
    if |pieces| == 1 {
      SplitWithoutSeparator(pieces[0], sep);
    } else {
      SplitJoin(pieces[1..], sep);
      SplitAfterFirst(pieces[0], sep, Join(pieces[1..], sep));
      assert [pieces[0]] + pieces[1..] == pieces;
    }
  }

  /**
    `Split(s, sep)[0]` is what Python's `s.split(sep)[0]` is used for: the text of `s`
    before its first separator (all of `s` when there is none).
   */
  lemma {:induction false} SplitHeadIsTextBeforeFirst(s: string, sep: char)
    ensures Split(s, sep)[0] <= s
    ensures sep !in Split(s, sep)[0]
    ensures |Split(s, sep)[0]| < |s| ==> s[|Split(s, sep)[0]|] == sep
    ensures |Split(s, sep)[0]| == |s| <==> sep !in s
  {
    if |s| > 0 {
      SplitHeadIsTextBeforeFirst(s[1..], sep);
    }
  }

  /** The text of `s` before its first `c`, all of `s` when there is none. */
  function BeforeFirst(s: string, c: char): string
  {
    if |s| == 0 || s[0] == c then "" else [s[0]] + BeforeFirst(s[1..], c)
  }

  /** The first piece of `Split` is the text before the first separator. */
  lemma {:induction false} SplitHeadIsBeforeFirst(s: string, sep: char)
    ensures Split(s, sep)[0] == BeforeFirst(s, sep)
  {
    if |s| > 0 {
      SplitHeadIsBeforeFirst(s[1..], sep);
    }
  }

  // ---------------------------------------------------------------------------
  // Substring test

  /** `needle` occurs in `hay` starting at index `k`. */
  ghost predicate OccursAt(hay: string, needle: string, k: int)
  {
    0 <= k && k + |needle| <= |hay| && hay[k..k + |needle|] == needle
  }

  lemma ShiftOccurrence(hay: string, needle: string)
    requires |hay| > 0 && !(needle <= hay)
    ensures (exists k :: OccursAt(hay, needle, k)) <==> (exists k :: OccursAt(hay[1..], needle, k))
  {
    if k :| OccursAt(hay, needle, k) {
      assert k != 0;
      assert hay[1..][k - 1..k - 1 + |needle|] == hay[k..k + |needle|];
      assert OccursAt(hay[1..], needle, k - 1);
    }
    if k :| OccursAt(hay[1..], needle, k) {
      assert hay[k + 1..k + 1 + |needle|] == hay[1..][k..k + |needle|];
      assert OccursAt(hay, needle, k + 1);
    }
  }

  /** Python's `needle in hay` on strings. */
  function Contains(hay: string, needle: string): bool
  {
    if needle <= hay then true
    else if |hay| == 0 then false
    else Contains(hay[1..], needle)
  }

  /** `Contains` holds exactly when some position of `hay` starts a copy of `needle`. */
  lemma {:induction false} ContainsIsSubstring(hay: string, needle: string)
    ensures Contains(hay, needle) <==> exists k :: OccursAt(hay, needle, k)
  {
    if needle <= hay {
      assert OccursAt(hay, needle, 0);
    } else if |hay| > 0 {
      ContainsIsSubstring(hay[1..], needle);
      ShiftOccurrence(hay, needle);
    }
  }

  // ---------------------------------------------------------------------------
  // Paths

  /** `os.path.basename` on a POSIX path. */
  function Basename(path: string): string
  {
    if |path| == 0 || path[|path| - 1] == '/' then ""
    else Basename(path[..|path| - 1]) + [path[|path| - 1]]
  }

  /** The basename is the text after the last `/`: a suffix without `/`, preceded by `/` or the start. */
  lemma {:induction false} BasenameIsLastComponent(path: string)
    ensures '/' !in Basename(path)
    ensures |Basename(path)| <= |path| && path[|path| - |Basename(path)|..] == Basename(path)
    ensures |Basename(path)| < |path| ==> path[|path| - |Basename(path)| - 1] == '/'
  {
    if |path| > 0 && path[|path| - 1] != '/' {
      var init := path[..|path| - 1];
      BasenameIsLastComponent(init);
      assert path[|path| - |Basename(path)|..] == init[|init| - |Basename(init)|..] + [path[|path| - 1]];
    }
  }

  /** The basename of `dir/name` is `name` when `name` holds no `/`. */
  lemma {:induction false} BasenameOfJoin(dir: string, name: string)
    requires '/' !in name
    ensures Basename(dir + "/" + name) == name
  {
    if |name| > 0 {
      var init := name[..|name| - 1];
      assert (dir + "/" + name)[..|dir + "/" + name| - 1] == dir + "/" + init;
      BasenameOfJoin(dir, init);
    }
  }

  // ---------------------------------------------------------------------------
  // Integers and their decimal text

  /**
    The whitespace `int()` strips from text: the six ASCII blanks (space, tab, line
    feed, vertical tab, form feed, carriage return) and the non-ASCII characters
    `str.isspace` accepts. The ASCII separators U+001C to U+001F are not stripped.
   */
  predicate IsSpace(c: char)
  {
    || c == ' '
    || ('\t' <= c <= '\r')
    || c == '\U{85}' || c == '\U{A0}' || c == '\U{1680}'
    || ('\U{2000}' <= c <= '\U{200A}')
    || c == '\U{2028}' || c == '\U{2029}' || c == '\U{202F}' || c == '\U{205F}' || c == '\U{3000}'
  }

  predicate IsDigit(c: char)
  {
    '0' <= c <= '9'
  }

  predicate IsSign(c: char)
  {
    c == '+' || c == '-'
  }

  /** A character that can never appear in a text `int()` accepts. */
  predicate IsForeign(c: char)
  {
    !IsDigit(c) && !IsSpace(c) && !IsSign(c)
  }

  predicate IsNumeral(d: string)
  {
    |d| > 0 && forall i :: 0 <= i < |d| ==> IsDigit(d[i])
  }

  /** `s` without its leading whitespace. */
  function TrimLeft(s: string): string
  {
    if |s| > 0 && IsSpace(s[0]) then TrimLeft(s[1..]) else s
  }

  /** `TrimLeft` drops a whitespace prefix and keeps a suffix that does not start with whitespace. */
  lemma {:induction false} TrimLeftDropsSpace(s: string)
    ensures var t := TrimLeft(s);
      && |t| <= |s| && t == s[|s| - |t|..]
      && (forall i :: 0 <= i < |s| - |t| ==> IsSpace(s[i]))
      && (|t| > 0 ==> !IsSpace(t[0]))
  {
    if |s| > 0 && IsSpace(s[0]) {
      TrimLeftDropsSpace(s[1..]);
    }
  }

  /** `s` without its trailing whitespace. */
  function TrimRight(s: string): string
  {
    if |s| > 0 && IsSpace(s[|s| - 1]) then TrimRight(s[..|s| - 1]) else s
  }

  /** `TrimRight` drops a whitespace suffix and keeps a prefix that does not end with whitespace. */
  lemma {:induction false} TrimRightDropsSpace(s: string)
    ensures var t := TrimRight(s);
      && t <= s
      && (forall i :: |t| <= i < |s| ==> IsSpace(s[i]))
      && (|t| > 0 ==> !IsSpace(t[|t| - 1]))
  {
    if |s| > 0 && IsSpace(s[|s| - 1]) {
      TrimRightDropsSpace(s[..|s| - 1]);
    }
  }

  /** Python's `s.strip()`. */
  function Strip(s: string): string
  {
    TrimRight(TrimLeft(s))
  }

  /** The value of a string of decimal digits, most significant first. */
  function DigitsValue(d: string): nat
    requires forall i :: 0 <= i < |d| ==> IsDigit(d[i])
  {
    if |d| == 0 then 0
    else
      assert IsDigit(d[|d| - 1]);
      10 * DigitsValue(d[..|d| - 1]) + ((d[|d| - 1] as int) - ('0' as int))
  }

  /**
    Python's `int(s)` in base 10: surrounding whitespace is dropped, then an optional
    sign and at least one digit must make up the rest; anything else is a `ValueError`,
    here `None`.
   */
  function ParseInt(s: string): Option<int>
  {
    var t := Strip(s);
    if |t| > 0 && IsSign(t[0]) then
      if IsNumeral(t[1..]) then
        var v: int := DigitsValue(t[1..]);
        Some(if t[0] == '-' then -v else v)
      else None
    else if IsNumeral(t) then Some(DigitsValue(t))
    else None
  }

  /** The decimal digits of `n`, without leading zeros. */
  function NatToDigits(n: nat): (d: string)
    ensures IsNumeral(d)
    ensures DigitsValue(d) == n
  {
    if n < 10 then [('0' as int + n) as char]
    else
      var d := NatToDigits(n / 10) + [('0' as int + n % 10) as char];
      assert d[..|d| - 1] == NatToDigits(n / 10);
      d
  }

  /** Python's `str(n)` for an integer. */
  function IntToString(n: int): (s: string)
    ensures |s| > 0
    ensures forall i :: 0 <= i < |s| ==> IsDigit(s[i]) || (i == 0 && s[i] == '-')
  {
    if n < 0 then "-" + NatToDigits(-n) else NatToDigits(n)
  }

  /** `int` reads back what `str` writes. */
  lemma IntToStringRoundTrip(n: int)
    ensures ParseInt(IntToString(n)) == Some(n)
  {
    var s := IntToString(n);
    assert !IsSpace(s[0]) && !IsSpace(s[|s| - 1]);
    assert TrimLeft(s) == s;
    assert TrimRight(s) == s;
    if n < 0 {
      assert s[1..] == NatToDigits(-n);
    }
  }

  /** A character that is neither whitespace, a sign nor a digit makes `int()` fail. */
  lemma ParseIntRejectsForeign(s: string, k: nat)
    requires k < |s| && IsForeign(s[k])
    ensures ParseInt(s) == None
  {
    var l := TrimLeft(s);
    TrimLeftDropsSpace(s);
    var j := |s| - |l|;
    assert k >= j && l[k - j] == s[k];
    var t := TrimRight(l);
    TrimRightDropsSpace(l);
    assert k - j < |t| && t[k - j] == s[k];
    if |t| > 0 && IsSign(t[0]) {
      assert k - j > 0 && t[1..][k - j - 1] == s[k];
    }
  }

  /** The ASCII information separators are not whitespace to `int()`: `int("\x1c5")` raises. */
  lemma ParseIntKeepsSeparators(s: string)
    requires s == "\U{1C}5"
    ensures ParseInt(s) == None
  {
    assert IsForeign(s[0]);
    ParseIntRejectsForeign(s, 0);
  }

  /** A text without any digit is never an integer. */
  lemma ParseIntNeedsDigit(s: string)
    requires forall i :: 0 <= i < |s| ==> !IsDigit(s[i])
    ensures ParseInt(s) == None
  {
    var l := TrimLeft(s);
    TrimLeftDropsSpace(s);
    var t := TrimRight(l);
    TrimRightDropsSpace(l);
    assert forall i :: 0 <= i < |t| ==> t[i] == s[|s| - |l| + i];
    if |t| > 0 && IsSign(t[0]) && |t| > 1 {
      assert t[1..][0] == t[1];
    }
  }
}
