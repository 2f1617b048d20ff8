/** Character-level helpers shared by the configuration parser and the uevent
    scanner: splitting on a delimiter (what `getline(stream, term, delim)` and a
    walk over NUL-separated fields both do), and a model of the C++ library call
    `std::stoi` on 32-bit `int`. */
module CText {

  /** A C++ `int32_t` / `int` value. */
  type Int32 = x: int | -0x8000_0000 <= x < 0x8000_0000

  const NUL: char := '\0'

  // ---------------------------------------------------------------------------
  // Splitting on a delimiter
  // ---------------------------------------------------------------------------

  /** The pieces of `s` between occurrences of `sep`, in order; `k` delimiters
      give `k + 1` pieces, so adjacent delimiters give an empty piece. */
  function Split(s: string, sep: char): (pieces: seq<string>)
    ensures |pieces| >= 1
    decreases |s|
  {
    if s == [] then [[]]
    else
      var rest := Split(s[1..], sep);
      if s[0] == sep then [[]] + rest
      else [[s[0]] + rest[0]] + rest[1..]
  }

  /** The inverse of Split: the pieces glued together with `sep` between them. */
  function Join(pieces: seq<string>, sep: char): string
    requires |pieces| >= 1
  {
    if |pieces| == 1 then pieces[0] else pieces[0] + [sep] + Join(pieces[1..], sep)
  }

  /** Split and Join are inverse: the pieces hold no delimiter, and gluing
      them back together gives the string that was split. */
  lemma {:induction false} JoinSplit(s: string, sep: char)
    ensures var pieces := Split(s, sep);
            (forall i :: 0 <= i < |pieces| ==> sep !in pieces[i]) && Join(pieces, sep) == s
    decreases |s|
  {
    if s != [] {
      var rest := Split(s[1..], sep);
      JoinSplit(s[1..], sep);
      assert [s[0]] + s[1..] == s;
      if s[0] != sep {
        var pieces := [[s[0]] + rest[0]] + rest[1..];
        assert pieces[1..] == rest[1..];
        assert Join(pieces, sep) == [s[0]] + Join(rest, sep);
      }
    }
  }

  /** Splitting `s` at the first delimiter, found at `j` (or `j == |s|` when
      there is none), gives `s[..j]` followed by the pieces of what follows. */
  lemma {:induction false} SplitAt(s: string, sep: char, j: nat)
    requires j <= |s| && sep !in s[..j]
    requires j < |s| ==> s[j] == sep
    ensures Split(s, sep)[0] == s[..j]
    ensures Split(s, sep)[1..] == if j == |s| then [] else Split(s[j + 1..], sep)
  {
    if j == 0 {
    } else {
      assert s[1..][..j - 1] == s[1..j];
      assert forall x :: x in s[1..j] ==> x in s[..j];
      SplitAt(s[1..], sep, j - 1);
      if j < |s| {
        assert s[1..][j..] == s[j + 1..];
      }
      assert [s[0]] + s[1..j] == s[..j];
    }
  }

  /** The round trip the other way: gluing pieces that do not contain the
      delimiter and splitting again gives the same pieces back. */
  lemma {:induction false} SplitJoin(pieces: seq<string>, sep: char)
    requires |pieces| >= 1
    requires forall i :: 0 <= i < |pieces| ==> sep !in pieces[i]
    ensures Split(Join(pieces, sep), sep) == pieces
  {
    var s := Join(pieces, sep);
    var w := pieces[0];
    if |pieces| == 1 {
      assert s[..|w|] == w;
      SplitAt(s, sep, |w|);
    } else {
      var t := Join(pieces[1..], sep);
      assert s == w + [sep] + t;
      assert s[..|w|] == w;
      SplitAt(s, sep, |w|);
      assert s[|w| + 1..] == t;
      SplitJoin(pieces[1..], sep);
    }
  }

  /** Appending the delimiter starts a new, empty last piece. */
  lemma {:induction false} SplitSnocSep(s: string, sep: char)
    ensures Split(s + [sep], sep) == Split(s, sep) + [[]]
    decreases |s|
  {
    if s == [] {
      assert [sep][1..] == [];
    } else {
      assert (s + [sep])[1..] == s[1..] + [sep];
      SplitSnocSep(s[1..], sep);
      var rest := Split(s[1..], sep);
      if s[0] != sep {
        assert (rest + [[]])[1..] == rest[1..] + [[]];
      }
    }
  }

  /** Appending any other character extends the last piece. */
  lemma {:induction false} SplitSnocOther(s: string, c: char, sep: char)
    requires c != sep
    ensures var p := Split(s, sep);
            Split(s + [c], sep) == p[..|p| - 1] + [p[|p| - 1] + [c]]
    decreases |s|
  {
    if s == [] {
      var e: string := [];
      assert s + [c] == [c] && [c][1..] == e;
      assert Split(e, sep) == [e];
      assert [c] + e == [c] && [[c]] + [e][1..] == [[c]];
    } else {
      assert (s + [c])[1..] == s[1..] + [c];
      SplitSnocOther(s[1..], c, sep);
      if s[0] == sep {
        SnocAfterSep(s, c, sep);
      } else {
        SnocAfterOther(s, c, sep);
      }
    }
  }

  lemma SnocAfterSep(s: string, c: char, sep: char)
    requires s != [] && s[0] == sep && c != sep
    requires var rest := Split(s[1..], sep);
             Split(s[1..] + [c], sep) == rest[..|rest| - 1] + [rest[|rest| - 1] + [c]]
    ensures var p := Split(s, sep);
            Split(s + [c], sep) == p[..|p| - 1] + [p[|p| - 1] + [c]]
  {
    var rest := Split(s[1..], sep);
    var n := |rest|;
    assert (s + [c])[1..] == s[1..] + [c];
    assert Split(s, sep) == [[]] + rest;
    assert ([[]] + rest)[..n] == [[]] + rest[..n - 1];
  }

  lemma SnocAfterOther(s: string, c: char, sep: char)
    requires s != [] && s[0] != sep && c != sep
    requires var rest := Split(s[1..], sep);
             Split(s[1..] + [c], sep) == rest[..|rest| - 1] + [rest[|rest| - 1] + [c]]
    ensures var p := Split(s, sep);
            Split(s + [c], sep) == p[..|p| - 1] + [p[|p| - 1] + [c]]
  {
    var rest := Split(s[1..], sep);
    var rest' := Split(s[1..] + [c], sep);
    var n := |rest|;
    var x := [s[0]] + rest[0];
    assert (s + [c])[1..] == s[1..] + [c];
    assert Split(s, sep) == [x] + rest[1..];
    assert Split(s + [c], sep) == [[s[0]] + rest'[0]] + rest'[1..];
    if n == 1 {
      assert rest' == [rest[0] + [c]];
      assert [s[0]] + (rest[0] + [c]) == x + [c];
    } else {
      assert rest'[0] == rest[0];
      assert rest'[1..] == rest[1..n - 1] + [rest[n - 1] + [c]];
      assert ([x] + rest[1..])[..n - 1] == [x] + rest[1..n - 1];
    }
  }

  /** Appending one character extends the last piece, or starts a new empty
      piece when the character is the delimiter. */
  lemma SplitSnoc(s: string, c: char, sep: char)
    ensures var p := Split(s, sep);
            Split(s + [c], sep) ==
              if c == sep then p + [[]] else p[..|p| - 1] + [p[|p| - 1] + [c]]
  {
    if c == sep {
      SplitSnocSep(s, sep);
    } else {
      SplitSnocOther(s, c, sep);
    }
  }

  /** The last piece is empty exactly when `s` is empty or ends in the delimiter. */
  lemma LastPieceEmpty(s: string, sep: char)
    ensures var p := Split(s, sep);
            p[|p| - 1] == [] <==> s == [] || s[|s| - 1] == sep
  {
    if s != [] {
      var init := s[..|s| - 1];
      assert init + [s[|s| - 1]] == s;
      SplitSnoc(init, s[|s| - 1], sep);
    }
  }

  function HasPrefix(s: string, prefix: string): bool {
    |prefix| <= |s| && s[..|prefix|] == prefix
  }

  function HasSuffix(s: string, suffix: string): bool {
    |suffix| <= |s| && s[|s| - |suffix|..] == suffix
  }

  // ---------------------------------------------------------------------------
  // std::stoi
  // ---------------------------------------------------------------------------

  /** `isspace` in the "C" locale: space, \t, \n, \v, \f, \r. */
  predicate IsSpace(c: char) {
    c == ' ' || c == '\t' || c == '\n' || c == 11 as char || c == 12 as char || c == '\r'
  }

  predicate IsDigit(c: char) {
    '0' <= c <= '9'
  }

  predicate AllDigits(s: string) {
    forall i :: 0 <= i < |s| ==> IsDigit(s[i])
  }

  /** The first index at or after `i` that does not hold white space. */
  function SkipSpaces(s: string, i: nat): (j: nat)
    requires i <= |s|
    ensures i <= j <= |s|
    decreases |s| - i
  {
    if i < |s| && IsSpace(s[i]) then SkipSpaces(s, i + 1) else i
  }

  /** The end of the run of decimal digits that starts at `i`. */
  function DigitsEnd(s: string, i: nat): (j: nat)
    requires i <= |s|
    ensures i <= j <= |s|
    decreases |s| - i
  {
    if i < |s| && IsDigit(s[i]) then DigitsEnd(s, i + 1) else i
  }

  /** The value of the decimal numeral `s[i..j]`, most significant digit first. */
  function DigitsValue(s: string, i: nat, j: nat): nat
    requires i <= j <= |s|
    decreases j - i
  {
    if j == i then 0
    else DigitsValue(s, i, j - 1) * 10 + (if IsDigit(s[j - 1]) then s[j - 1] as int - '0' as int else 0)
  }

  /** The exceptions `std::stoi` throws. */
  datatype StoiError = InvalidArgument | OutOfRange

  datatype StoiResult = Value(value: Int32) | Threw(error: StoiError)

  /** `std::stoi(s)` with base 10, as `strtol` reads the string: leading white
      space is skipped, one optional sign is taken, then the longest run of
      digits; anything after it is ignored. No digits at all throws
      `std::invalid_argument`; a value outside `int` throws `std::out_of_range`.
      A string with no digit anywhere, the empty one among them, throws
      `std::invalid_argument`. */
  function Stoi(s: string): (r: StoiResult)
    ensures (forall k :: 0 <= k < |s| ==> !IsDigit(s[k])) ==> r == Threw(InvalidArgument)
  {
    var i := SkipSpaces(s, 0);
    var negative := i < |s| && s[i] == '-';
    var start := if i < |s| && (s[i] == '-' || s[i] == '+') then i + 1 else i;
    var end := DigitsEnd(s, start);
    if end == start then Threw(InvalidArgument)
    else
      var magnitude := DigitsValue(s, start, end);
      var v: int := if negative then -(magnitude as int) else magnitude;
      if -0x8000_0000 <= v < 0x8000_0000 then Value(v) else Threw(OutOfRange)
  }

  /** The value of a numeral depends only on its own characters. */
  lemma {:induction false} DigitsValueShift(s: string, i: nat, j: nat, t: string, k: nat)
    requires i <= j <= |s| && k + (j - i) <= |t|
    requires s[i..j] == t[k..k + (j - i)]
    ensures DigitsValue(s, i, j) == DigitsValue(t, k, k + (j - i))
    decreases j - i
  {
    if j > i {
      assert s[j - 1] == s[i..j][j - 1 - i] == t[k..k + (j - i)][j - 1 - i] == t[k + (j - i) - 1];
      assert s[i..j - 1] == s[i..j][..j - 1 - i];
      assert t[k..k + (j - 1 - i)] == t[k..k + (j - i)][..j - 1 - i];
      DigitsValueShift(s, i, j - 1, t, k);
    }
  }

  lemma {:induction false} DigitsEndOfDigits(s: string, i: nat)
    requires i <= |s| && forall k :: i <= k < |s| ==> IsDigit(s[k])
    ensures DigitsEnd(s, i) == |s|
    decreases |s| - i
  {
    if i < |s| {
      DigitsEndOfDigits(s, i + 1);
    }
  }

  // ---------------------------------------------------------------------------
  // Decimal rendering, the partner of Stoi
  // ---------------------------------------------------------------------------

  function DigitChar(d: nat): char
    requires d < 10
  {
    ('0' as int + d) as char
  }

  /** The decimal numeral of `n`, without leading zeros. */
  function ShowNat(n: nat): (s: string)
    ensures s != [] && AllDigits(s)
    ensures DigitsValue(s, 0, |s|) == n
  {
    if n < 10 then [DigitChar(n)]
    else
      var init := ShowNat(n / 10);
      var s := init + [DigitChar(n % 10)];
      assert s[0..|s| - 1] == init[0..|init|];
      DigitsValueShift(s, 0, |s| - 1, init, 0);
      s
  }

  /** How the number is written in the configuration file: an optional minus
      sign followed by the decimal numeral. */
  function Show(n: int): string {
    if n < 0 then "-" + ShowNat(-n) else ShowNat(n)
  }

  lemma ShowShape(n: int)
    ensures Show(n) != [] && ' ' !in Show(n)
    ensures Show(n)[0] == '-' || IsDigit(Show(n)[0])
  {
    if n < 0 {
      assert forall i :: 1 <= i < |Show(n)| ==> Show(n)[i] == ShowNat(-n)[i - 1];
    } else {
      assert forall i :: 0 <= i < |Show(n)| ==> IsDigit(Show(n)[i]);
    }
  }

  /** `std::stoi` reads back every number written by Show that fits in an
      `int`, and throws `std::out_of_range` for every other one. */
  lemma StoiOfShow(n: int)
    ensures Stoi(Show(n)) == if -0x8000_0000 <= n < 0x8000_0000 then Value(n) else Threw(OutOfRange)
  {
    var s := Show(n);
    ShowShape(n);
    assert SkipSpaces(s, 0) == 0;
    if n < 0 {
      var d := ShowNat(-n);
      assert s[1..] == d;
      DigitsEndOfDigits(s, 1);
      assert s[1..|s|] == d[0..|d|];
      DigitsValueShift(s, 1, |s|, d, 0);
    } else {
      DigitsEndOfDigits(s, 0);
    }
  }

  /** In particular every 32-bit value survives the round trip. */
  lemma StoiShow(n: Int32)
    ensures Stoi(Show(n)) == Value(n)
  {
    StoiOfShow(n);
  }
}
