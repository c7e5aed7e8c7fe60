/** String helpers used by the request handlers: Python's `str.split` on a
    single separator, `str.replace(' ', '-')`, `str(n)` for a natural number,
    and the case-insensitive containment that SQL `ILIKE '%x%'` performs. */
module Text {

  type String = seq<char>

  // ---------------------------------------------------------------------------
  // Splitting on a separator character
  // ---------------------------------------------------------------------------

  /** `s.split(sep)`: the maximal separator-free pieces of `s`, in order.
      Like Python, an empty string splits into one empty piece. */
  function Split(s: String, sep: char): (parts: seq<String>)
    ensures |parts| > 0
    ensures forall i :: 0 <= i < |parts| ==> sep !in parts[i]
    ensures sep !in s ==> parts == [s]
    ensures |parts| == 1 ==> sep !in s
    decreases |s|
  {
    if s == [] then [[]]
    else
      var rest := Split(s[1..], sep);
      if s[0] == sep then [[]] + rest
      else
        assert s == [s[0]] + s[1..];
        [[s[0]] + rest[0]] + rest[1..]
  }

  /** `sep.join(parts)`. */
  function Join(parts: seq<String>, sep: char): String
    requires |parts| > 0
    decreases |parts|
  {
    if |parts| == 1 then parts[0] else parts[0] + [sep] + Join(parts[1..], sep)
  }

  /** Prepending a character that is not the separator extends the first
      piece. */
  lemma JoinConsFirst(c: char, rest: seq<String>, sep: char)
    requires |rest| > 0
    ensures Join([[c] + rest[0]] + rest[1..], sep) == [c] + Join(rest, sep)
  {
    var parts := [[c] + rest[0]] + rest[1..];
    if |rest| > 1 {
      assert parts[1..] == rest[1..];
    }
  }

  /** Joining the pieces back with the separator restores the string. */
  lemma {:induction false} JoinSplit(s: String, sep: char)
    ensures Join(Split(s, sep), sep) == s
    decreases |s|
  {
    if s != [] {
      var rest := Split(s[1..], sep);
      JoinSplit(s[1..], sep);
      assert s == [s[0]] + s[1..];
      if s[0] == sep {
        assert Split(s, sep) == [[]] + rest;
        assert ([[]] + rest)[1..] == rest;
      } else {
        assert Split(s, sep) == [[s[0]] + rest[0]] + rest[1..];
        JoinConsFirst(s[0], rest, sep);
      }
    }
  }

  /** The last piece of a split is the part of `s` after its last separator:
      it is a suffix of `s`, and the character right before it, if any, is
      the separator. */
  lemma {:induction false} SplitLastPart(s: String, sep: char)
    ensures var parts := Split(s, sep);
            var last := parts[|parts| - 1];
            && |last| <= |s|
            && last == s[|s| - |last|..]
            && (|last| < |s| ==> s[|s| - |last| - 1] == sep)
    decreases |s|
  {
    if s != [] {
      var rest := Split(s[1..], sep);
      SplitLastPart(s[1..], sep);
      var parts := Split(s, sep);
      if s[0] == sep {
        assert parts[|parts| - 1] == rest[|rest| - 1];
      } else if |rest| == 1 {
        assert parts[|parts| - 1] == [s[0]] + rest[0];
        assert s == [s[0]] + s[1..];
      } else {
        assert parts[|parts| - 1] == rest[|rest| - 1];
      }
    }
  }

  // ---------------------------------------------------------------------------
  // Text up to the first occurrence of a character
  // ---------------------------------------------------------------------------

  /** The longest prefix of `s` that does not contain `c`. */
  function TakeUntil(s: String, c: char): (r: String)
    ensures c !in r
    ensures |r| <= |s| && r == s[..|r|]
    ensures |r| < |s| ==> s[|r|] == c
    decreases |s|
  {
    if s == [] || s[0] == c then [] else [s[0]] + TakeUntil(s[1..], c)
  }

  /** A prefix free of `c` followed by `c` is what `TakeUntil` recovers. */
  lemma {:induction false} TakeUntilPrefix(x: String, c: char, y: String)
    requires c !in x
    ensures TakeUntil(x + [c] + y, c) == x
    decreases |x|
  {
    if x != [] {
      assert (x + [c] + y)[1..] == x[1..] + [c] + y;
      TakeUntilPrefix(x[1..], c, y);
    }
  }

  // ---------------------------------------------------------------------------
  // Decimal rendering of natural numbers: Python's `str(n)` for n >= 0
  // ---------------------------------------------------------------------------

  predicate IsDigit(c: char) {
    '0' <= c <= '9'
  }

  predicate AllDigits(s: String) {
    forall i :: 0 <= i < |s| ==> IsDigit(s[i])
  }

  function DigitChar(d: nat): (c: char)
    requires d < 10
    ensures IsDigit(c)
    ensures (c as int) - ('0' as int) == d
  {
    (d + '0' as int) as char
  }

  function DigitValue(c: char): (d: nat)
    requires IsDigit(c)
    ensures d < 10
  {
    (c as int) - ('0' as int)
  }

  /** `str(n)`: the decimal digits of `n`, most significant first, without
      leading zeros. */
  function NatToDecimal(n: nat): (s: String)
    ensures |s| > 0
    ensures AllDigits(s)
    ensures |s| > 1 ==> s[0] != '0'
    decreases n
  {
    if n < 10 then [DigitChar(n)] else NatToDecimal(n / 10) + [DigitChar(n % 10)]
  }

  /** The value of a string of decimal digits (the reference reading). */
  function ParseDecimal(s: String): nat
    requires AllDigits(s)
    decreases |s|
  {
    if s == [] then 0 else ParseDecimal(s[..|s| - 1]) * 10 + DigitValue(s[|s| - 1])
  }

  /** Reading the rendering back gives the number. */
  lemma {:induction false} ParseNatToDecimal(n: nat)
    ensures ParseDecimal(NatToDecimal(n)) == n
    decreases n
  {
    if n >= 10 {
      var s := NatToDecimal(n);
      assert s[..|s| - 1] == NatToDecimal(n / 10);
      ParseNatToDecimal(n / 10);
    }
  }

  /** Distinct numbers render to distinct strings. */
  lemma NatToDecimalInjective(m: nat, n: nat)
    requires NatToDecimal(m) == NatToDecimal(n)
    ensures m == n
  {
    ParseNatToDecimal(m);
    ParseNatToDecimal(n);
  }

  // ---------------------------------------------------------------------------
  // Replacing spaces: `s.replace(' ', '-')`
  // ---------------------------------------------------------------------------

  function ReplaceSpaces(s: String): (r: String)
    ensures |r| == |s|
    ensures ' ' !in r
    ensures forall i :: 0 <= i < |s| && s[i] != ' ' ==> r[i] == s[i]
    ensures forall i :: 0 <= i < |s| && s[i] == ' ' ==> r[i] == '-'
    decreases |s|
  {
    if s == [] then []
    else [if s[0] == ' ' then '-' else s[0]] + ReplaceSpaces(s[1..])
  }

  // ---------------------------------------------------------------------------
  // Case-insensitive containment (SQL `column ILIKE '%needle%'`)
  // ---------------------------------------------------------------------------

  /** SQLite's built-in `lower()` folds only ASCII letters. */
  function LowerChar(c: char): char {
    if 'A' <= c <= 'Z' then (c as int + 32) as char else c
  }

  function Lower(s: String): (r: String)
    ensures |r| == |s|
    ensures forall i :: 0 <= i < |s| ==> r[i] == LowerChar(s[i])
    decreases |s|
  {
    if s == [] then [] else [LowerChar(s[0])] + Lower(s[1..])
  }

  /** `needle` occurs in `hay` at position `i`, ignoring ASCII case. */
  ghost predicate OccursAt(hay: String, needle: String, i: int) {
    0 <= i && i + |needle| <= |hay| && Lower(hay[i..i + |needle|]) == Lower(needle)
  }

  /** Reference reading of containment: some position holds the needle. */
  ghost predicate IsSubstringIgnoreCase(hay: String, needle: String) {
    exists i :: OccursAt(hay, needle, i)
  }

  /** The executable scan used by the filter. */
  function ContainsIgnoreCase(hay: String, needle: String): bool
    decreases |hay|
  {
    || (|needle| <= |hay| && Lower(hay[..|needle|]) == Lower(needle))
    || (|hay| > 0 && ContainsIgnoreCase(hay[1..], needle))
  }

  /** An occurrence in the tail is an occurrence one position further on. */
  lemma OccursAtTail(hay: String, needle: String, i: int)
    requires |hay| > 0 && 0 <= i
    ensures OccursAt(hay[1..], needle, i) <==> OccursAt(hay, needle, i + 1)
  {
    if 0 <= i && i + |needle| <= |hay| - 1 {
      assert hay[1..][i..i + |needle|] == hay[i + 1..i + 1 + |needle|];
    }
  }

  /** The scan finds the needle exactly when it occurs somewhere. */
  lemma {:induction false} ContainsIgnoreCaseCorrect(hay: String, needle: String)
    ensures ContainsIgnoreCase(hay, needle) <==> IsSubstringIgnoreCase(hay, needle)
    decreases |hay|
  {
    if |needle| <= |hay| && Lower(hay[..|needle|]) == Lower(needle) {
      assert OccursAt(hay, needle, 0);
    } else if |hay| > 0 {
      ContainsIgnoreCaseCorrect(hay[1..], needle);
      if ContainsIgnoreCase(hay[1..], needle) {
        var i :| OccursAt(hay[1..], needle, i);
        OccursAtTail(hay, needle, i);
      } else if IsSubstringIgnoreCase(hay, needle) {
        var i :| OccursAt(hay, needle, i);
        assert i != 0;
        OccursAtTail(hay, needle, i - 1);
        assert false;
      }
    } else {
      forall i ensures !OccursAt(hay, needle, i) {
      }
    }
  }
}
