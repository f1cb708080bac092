/**
 * The natural sort key used to order image file names before they are
 * written as video frames: a name is split into its non-digit and digit runs,
 * digit runs become numbers and text runs are lower-cased, so that
 * "image_2.png" sorts before "image_10.png".
 *
 * Characters are treated as ASCII: the digits are '0'..'9' and lower-casing
 * maps 'A'..'Z' to 'a'..'z' and leaves every other character alone.
 */
module ImagesToVideo {
  import opened Wrappers

  /** One element of a sort key: a lower-cased text run or the value of a digit run. */
  datatype Part = Text(text: string) | Num(value: nat)

  predicate IsDigit(c: char)
  {
    '0' <= c <= '9'
  }

  predicate NoDigits(s: string)
  {
    forall i :: 0 <= i < |s| ==> !IsDigit(s[i])
  }

  predicate AllDigits(s: string)
  {
    forall i :: 0 <= i < |s| ==> IsDigit(s[i])
  }

  /** Python's `str.isdigit`: true of a non-empty string of digits only, which is one whole digit run. */
  predicate IsDigitString(s: string)
    ensures IsDigitString(s) ==> DigitRunLength(s) == |s|
  {
    |s| > 0 && AllDigits(s)
  }

  /** Python's `str.lower` on one ASCII character: no upper-case letter remains, digits stay digits. */
  function LowerChar(c: char): (r: char)
    ensures !('A' <= r <= 'Z')
    ensures IsDigit(r) <==> IsDigit(c)
  {
    if 'A' <= c <= 'Z' then (c as int + 32) as char else c
  }

  /** Python's `str.lower` on ASCII text: same length, no upper-case letter left, digits where they were. */
  function Lower(s: string): (r: string)
    ensures |r| == |s|
    ensures forall i :: 0 <= i < |r| ==> !('A' <= r[i] <= 'Z') && (IsDigit(r[i]) <==> IsDigit(s[i]))
  {
    seq(|s|, i requires 0 <= i < |s| => LowerChar(s[i]))
  }

  function DigitValue(c: char): (v: nat)
    requires IsDigit(c)
  {
    c as int - '0' as int
  }

  function Pow10(k: nat): nat
  {
    if k == 0 then 1 else 10 * Pow10(k - 1)
  }

  /**
   * Python's `int` on a string of decimal digits: a run of k digits is below
   * 10^k. The empty string, on which `int` raises, is only the recursion's
   * base; the key applies this to non-empty digit strings alone.
   */
  function DecimalValue(d: string): (v: nat)
    requires AllDigits(d)
    ensures v < Pow10(|d|)
  {
    if d == [] then 0 else 10 * DecimalValue(d[..|d| - 1]) + DigitValue(d[|d| - 1])
  }

  /** The digit character of a value below 10. */
  function DigitChar(k: nat): (c: char)
    requires k < 10
    ensures IsDigit(c) && DigitValue(c) == k
  {
    (k + '0' as int) as char
  }

  /** The decimal digits of `n`, most significant first, without leading zeros. */
  function DecimalString(n: nat): (d: string)
    ensures IsDigitString(d)
    ensures |d| > 1 ==> d[0] != '0'
  {
    if n < 10 then [DigitChar(n)] else DecimalString(n / 10) + [DigitChar(n % 10)]
  }

  /** `int` reads back every number written in decimal. */
  lemma {:induction false} DecimalRoundTrip(n: nat)
    ensures DecimalValue(DecimalString(n)) == n
  {
    if n >= 10 {
      var d := DecimalString(n);
      assert d[..|d| - 1] == DecimalString(n / 10);
      DecimalRoundTrip(n / 10);
    }
  }

  /** A leading zero does not change the value, as `int("007") == 7`. */
  lemma {:induction false} DecimalLeadingZero(d: string)
    requires IsDigitString(d)
    ensures IsDigitString("0" + d) && DecimalValue("0" + d) == DecimalValue(d)
    decreases |d|
  {
    var z := "0" + d;
    if |d| == 1 {
      assert z[..|z| - 1] == "0";
      assert d[..|d| - 1] == [];
    } else {
      assert z[..|z| - 1] == "0" + d[..|d| - 1];
      assert z[|z| - 1] == d[|d| - 1];
      DecimalLeadingZero(d[..|d| - 1]);
    }
  }

  /** The length of the longest prefix of `s` that holds no digit. */
  function TextRunLength(s: string): (n: nat)
    ensures n <= |s| && NoDigits(s[..n])
    ensures n < |s| ==> IsDigit(s[n])
  {
    if s == [] || IsDigit(s[0]) then 0 else 1 + TextRunLength(s[1..])
  }

  /** The length of the longest prefix of `s` that holds only digits. */
  function DigitRunLength(s: string): (n: nat)
    ensures n <= |s| && AllDigits(s[..n])
    ensures n < |s| ==> !IsDigit(s[n])
  {
    if s == [] || !IsDigit(s[0]) then 0 else 1 + DigitRunLength(s[1..])
  }

  /** The concatenation of all pieces, in order. */
  function Concat(pieces: seq<string>): (joined: string)
  {
    if pieces == [] then "" else pieces[0] + Concat(pieces[1..])
  }

  lemma ConcatSingle(pieces: seq<string>)
    requires |pieces| == 1
    ensures Concat(pieces) == pieces[0]
  {
  }

  /**
   * `pieces` is the split of `s` into maximal runs that a regular-expression
   * split on one captured group of digits produces: text, digits, text, ...,
   * text; text pieces hold no digit, digit pieces are non-empty, the text
   * pieces between two digit pieces are non-empty (so the digit runs are
   * maximal), and together the pieces spell `s`.
   */
  ghost predicate IsRunSplit(pieces: seq<string>, s: string)
  {
    && |pieces| % 2 == 1
    && Concat(pieces) == s
    && (forall i :: 0 <= i < |pieces| && i % 2 == 0 ==> NoDigits(pieces[i]))
    && (forall i :: 0 <= i < |pieces| && i % 2 == 1 ==> IsDigitString(pieces[i]))
    && (forall i :: 0 < i < |pieces| - 1 && i % 2 == 0 ==> pieces[i] != "")
  }

  /** The split of `s` around its maximal digit runs, the digit runs kept. */
  function SplitDigits(s: string): (pieces: seq<string>)
    ensures IsRunSplit(pieces, s)
    ensures |s| > 0 && !IsDigit(s[0]) ==> pieces[0] != ""
    decreases |s|
  {
    var t := TextRunLength(s);
    if t == |s| then
      SplitSingle(s);
      [s]
    else
      var rest := s[t..];
      var d := DigitRunLength(rest);
      assert d > 0;
      assert IsDigitString(rest[..d]);
      var tail := SplitDigits(rest[d..]);
      assert rest[d..] == [] || !IsDigit(rest[d..][0]);
      SplitCons(s[..t], rest[..d], tail, rest[d..]);
      assert s == s[..t] + rest[..d] + rest[d..];
      [s[..t], rest[..d]] + tail
  }

  /** A string without digits is split into itself alone. */
  lemma SplitSingle(s: string)
    requires TextRunLength(s) == |s|
    ensures IsRunSplit([s], s)
  {
    assert s[..|s|] == s;
    ConcatSingle([s]);
  }

  /** Prefixing a text piece and a digit piece to a split of the rest gives a split. */
  lemma SplitCons(text: string, digits: string, tail: seq<string>, rest: string)
    requires NoDigits(text) && IsDigitString(digits)
    requires IsRunSplit(tail, rest)
    requires |tail| > 1 ==> tail[0] != ""
    ensures IsRunSplit([text, digits] + tail, text + digits + rest)
  {
  }

  /**
   * The sort key of a file name: every piece of its digit-run split becomes
   * the number it spells when it is a digit string, and its lower-cased text
   * otherwise.
   */
  function NaturalSortKey(s: string): (key: seq<Part>)
    ensures |key| % 2 == 1
    ensures forall i :: 0 <= i < |key| ==> (key[i].Text? <==> i % 2 == 0)
    ensures forall i :: 0 <= i < |key| && i % 2 == 0 ==> NoDigits(key[i].text)
  {
    var pieces := SplitDigits(s);
    seq(|pieces|, i requires 0 <= i < |pieces| => KeyPart(pieces[i]))
  }

  /**
   * The part a split piece becomes in the key: a number exactly for a digit
   * string, below 10^k for k digits, and otherwise text of the piece's length.
   */
  function KeyPart(piece: string): (p: Part)
    ensures p.Num? <==> IsDigitString(piece)
    ensures p.Num? ==> p.value < Pow10(|piece|)
    ensures p.Text? ==> |p.text| == |piece|
  {
    if IsDigitString(piece) then Num(DecimalValue(piece)) else Text(Lower(piece))
  }

  // ---------------------------------------------------------------------
  // The split is determined by its defining properties.
  // ---------------------------------------------------------------------

  /** A digit-free prefix followed by a digit or by nothing is the whole text run. */
  lemma TextRunLengthOf(text: string, x: string)
    requires NoDigits(text)
    requires x == [] || IsDigit(x[0])
    ensures TextRunLength(text + x) == |text|
  {
    assert forall k :: 0 <= k < |text| ==> (text + x)[k] == text[k];
    assert x != [] ==> (text + x)[|text|] == x[0];
  }

  /** A digit prefix followed by a non-digit or by nothing is the whole digit run. */
  lemma DigitRunLengthOf(digits: string, y: string)
    requires AllDigits(digits)
    requires y == [] || !IsDigit(y[0])
    ensures DigitRunLength(digits + y) == |digits|
  {
    assert forall k :: 0 <= k < |digits| ==> (digits + y)[k] == digits[k];
    assert y != [] ==> (digits + y)[|digits|] == y[0];
  }

  /** Dropping the first text piece and digit piece of a split leaves a split of the rest. */
  lemma SplitTail(pieces: seq<string>, s: string)
    requires IsRunSplit(pieces, s) && |pieces| > 1
    ensures IsRunSplit(pieces[2..], Concat(pieces[2..]))
    ensures s == pieces[0] + pieces[1] + Concat(pieces[2..])
    ensures Concat(pieces[2..]) == [] || !IsDigit(Concat(pieces[2..])[0])
  {
    var tail := pieces[2..];
    assert pieces[1..][1..] == tail;
    assert Concat(pieces[1..]) == pieces[1] + Concat(tail);
    assert NoDigits(pieces[2]);
    forall i | 0 <= i < |tail| && i % 2 == 0
      ensures NoDigits(tail[i])
    {
      assert tail[i] == pieces[i + 2];
    }
    forall i | 0 <= i < |tail| && i % 2 == 1
      ensures IsDigitString(tail[i])
    {
      assert tail[i] == pieces[i + 2];
    }
    forall i | 0 < i < |tail| - 1 && i % 2 == 0
      ensures tail[i] != ""
    {
      assert tail[i] == pieces[i + 2];
    }
    if |tail| > 1 {
      assert pieces[2] != "";
      assert Concat(tail)[0] == tail[0][0];
    } else {
      ConcatSingle(tail);
    }
  }

  /** Any split of `s` into maximal runs is the one SplitDigits computes. */
  lemma {:induction false} SplitUnique(pieces: seq<string>, s: string)
    requires IsRunSplit(pieces, s)
    ensures pieces == SplitDigits(s)
    decreases |pieces|
  {
    if |pieces| == 1 {
      ConcatSingle(pieces);
      TextRunLengthOf(s, []);
      assert s + [] == s;
    } else {
      SplitTail(pieces, s);
      var text, digits, rest := pieces[0], pieces[1], Concat(pieces[2..]);
      assert s == text + (digits + rest);
      assert (digits + rest)[0] == digits[0];
      TextRunLengthOf(text, digits + rest);
      assert s[|text|..] == digits + rest;
      DigitRunLengthOf(digits, rest);
      assert (digits + rest)[|digits|..] == rest;
      assert (digits + rest)[..|digits|] == digits;
      assert s[..|text|] == text;
      SplitUnique(pieces[2..], rest);
      assert pieces == [text, digits] + pieces[2..];
    }
  }

  // ---------------------------------------------------------------------
  // Counting the digit runs.
  // ---------------------------------------------------------------------

  /** The number of maximal digit runs of `s`: the digits not followed by another digit. */
  function DigitRunCount(s: string): (k: nat)
  {
    if s == [] then 0
    else (if IsDigit(s[0]) && (|s| == 1 || !IsDigit(s[1])) then 1 else 0) + DigitRunCount(s[1..])
  }

  lemma {:induction false} DigitRunCountText(text: string, x: string)
    requires NoDigits(text)
    ensures DigitRunCount(text + x) == DigitRunCount(x)
  {
    if text != [] {
      assert (text + x)[1..] == text[1..] + x;
      DigitRunCountText(text[1..], x);
    } else {
      assert text + x == x;
    }
  }

  lemma {:induction false} DigitRunCountDigits(digits: string, y: string)
    requires IsDigitString(digits)
    requires y == [] || !IsDigit(y[0])
    ensures DigitRunCount(digits + y) == 1 + DigitRunCount(y)
  {
    assert (digits + y)[1..] == digits[1..] + y;
    if |digits| == 1 {
      assert digits[1..] + y == y;
    } else {
      assert (digits + y)[1] == digits[1];
      DigitRunCountDigits(digits[1..], y);
    }
  }

  /** The key has one text part more than it has digit runs, and one number per digit run. */
  lemma {:induction false} NaturalSortKeyLength(s: string)
    ensures |NaturalSortKey(s)| == 2 * DigitRunCount(s) + 1
    decreases |s|
  {
    var pieces := SplitDigits(s);
    if |pieces| == 1 {
      ConcatSingle(pieces);
      DigitRunCountText(s, []);
      assert s + [] == s;
    } else {
      SplitTail(pieces, s);
      var text, digits, rest := pieces[0], pieces[1], Concat(pieces[2..]);
      assert s == text + (digits + rest);
      DigitRunCountText(text, digits + rest);
      DigitRunCountDigits(digits, rest);
      SplitUnique(pieces[2..], rest);
      NaturalSortKeyLength(rest);
    }
  }

  // ---------------------------------------------------------------------
  // The key, piece by piece.
  // ---------------------------------------------------------------------

  /**
   * For the split of `s` into maximal runs, the key holds the lower-cased
   * text runs at even positions and the decimal values of the digit runs, in
   * order, at odd positions.
   */
  lemma NaturalSortKeyPieces(s: string, pieces: seq<string>)
    requires IsRunSplit(pieces, s)
    ensures |NaturalSortKey(s)| == |pieces|
    ensures forall i :: 0 <= i < |pieces| && i % 2 == 0 ==> NaturalSortKey(s)[i] == Text(Lower(pieces[i]))
    ensures forall i :: 0 <= i < |pieces| && i % 2 == 1 ==> NaturalSortKey(s)[i] == Num(DecimalValue(pieces[i]))
  {
    SplitUnique(pieces, s);
    forall i | 0 <= i < |pieces| && i % 2 == 0
      ensures !IsDigitString(pieces[i])
    {
      if pieces[i] != "" {
        assert !IsDigit(pieces[i][0]);
      }
    }
  }

  /** A name without digits has its lower-cased self as its only key part. */
  lemma NaturalSortKeyNoDigits(s: string)
    requires NoDigits(s)
    ensures NaturalSortKey(s) == [Text(Lower(s))]
  {
  }

  /** The empty name has the one empty text part as its key. */
  lemma NaturalSortKeyEmpty()
    ensures NaturalSortKey("") == [Text("")]
  {
  }

  // ---------------------------------------------------------------------
  // Case insensitivity.
  // ---------------------------------------------------------------------

  /** Every piece lower-cased. */
  function LowerPieces(pieces: seq<string>): (lowered: seq<string>)
    ensures |lowered| == |pieces|
    ensures forall i :: 0 <= i < |pieces| ==> lowered[i] == Lower(pieces[i])
  {
    if pieces == [] then [] else [Lower(pieces[0])] + LowerPieces(pieces[1..])
  }

  lemma {:induction false} LowerConcat(pieces: seq<string>)
    ensures Concat(LowerPieces(pieces)) == Lower(Concat(pieces))
  {
    if pieces != [] {
      LowerConcat(pieces[1..]);
      assert LowerPieces(pieces)[1..] == LowerPieces(pieces[1..]);
      assert Lower(pieces[0] + Concat(pieces[1..])) == Lower(pieces[0]) + Lower(Concat(pieces[1..]));
    }
  }

  /** Lower-casing keeps digits and non-digits apart and leaves digits alone. */
  lemma LowerKeepsDigits(t: string)
    ensures NoDigits(t) ==> NoDigits(Lower(t))
    ensures AllDigits(t) ==> Lower(t) == t
    ensures Lower(Lower(t)) == Lower(t)
  {
  }

  /** Lower-casing every piece of a split gives the split of the lower-cased name. */
  lemma LowerPiecesSplit(pieces: seq<string>, s: string)
    requires IsRunSplit(pieces, s)
    ensures IsRunSplit(LowerPieces(pieces), Lower(s))
  {
    var lowered := LowerPieces(pieces);
    LowerConcat(pieces);
    forall i | 0 <= i < |pieces|
      ensures i % 2 == 0 ==> NoDigits(lowered[i])
      ensures i % 2 == 1 ==> lowered[i] == pieces[i]
    {
      LowerKeepsDigits(pieces[i]);
    }
  }

  /** Lower-casing the name does not change its key. */
  lemma NaturalSortKeyCaseInsensitive(s: string)
    ensures NaturalSortKey(Lower(s)) == NaturalSortKey(s)
  {
    var pieces := SplitDigits(s);
    var lowered := LowerPieces(pieces);
    LowerPiecesSplit(pieces, s);
    NaturalSortKeyPieces(Lower(s), lowered);
    NaturalSortKeyPieces(s, pieces);
    forall i | 0 <= i < |pieces|
      ensures NaturalSortKey(Lower(s))[i] == NaturalSortKey(s)[i]
    {
      LowerKeepsDigits(pieces[i]);
    }
  }

  // ---------------------------------------------------------------------
  // Comparing keys as Python compares lists.
  // ---------------------------------------------------------------------

  /** Python's `<` on strings: lexicographic by character code, a proper prefix first; irreflexive. */
  function StringLess(x: string, y: string): (r: bool)
    ensures r ==> x != y
  {
    if x == [] then y != []
    else if y == [] then false
    else if x[0] != y[0] then x[0] < y[0]
    else StringLess(x[1..], y[1..])
  }

  /** Python's `<` on two key parts; it raises (None) exactly when a text part meets a number. */
  function PartLess(a: Part, b: Part): (r: Option<bool>)
    ensures r.None? <==> a.Text? != b.Text?
    ensures r == Some(true) ==> a != b
  {
    match (a, b)
    case (Text(x), Text(y)) => Some(StringLess(x, y))
    case (Num(m), Num(n)) => Some(m < n)
    case _ => None
  }

  /**
   * Python's `<` on two keys: the parts are compared at the first position
   * where they differ, and a proper prefix comes first; None where that
   * comparison raises. A key is never below itself, and comparing a key with
   * itself never raises.
   */
  function KeyLess(a: seq<Part>, b: seq<Part>): (r: Option<bool>)
    ensures r == Some(true) ==> a != b
    ensures a == b ==> r == Some(false)
  {
    if a == [] then Some(b != [])
    else if b == [] then Some(false)
    else if a[0] != b[0] then PartLess(a[0], b[0])
    else KeyLess(a[1..], b[1..])
  }

  /** Text parts exactly at the positions of parity `p`. */
  ghost predicate Alternates(key: seq<Part>, p: nat)
  {
    forall i :: 0 <= i < |key| ==> (key[i].Text? <==> (i + p) % 2 == 0)
  }

  lemma {:induction false} AlternatingComparable(a: seq<Part>, b: seq<Part>, p: nat)
    requires Alternates(a, p) && Alternates(b, p)
    ensures KeyLess(a, b).Some?
  {
    if a != [] && b != [] && a[0] == b[0] {
      assert forall i :: 0 <= i < |a| - 1 ==> a[1..][i] == a[i + 1];
      assert forall i :: 0 <= i < |b| - 1 ==> b[1..][i] == b[i + 1];
      AlternatingComparable(a[1..], b[1..], p + 1);
    }
  }

  /** Sorting by this key never compares a text part with a number. */
  lemma NaturalSortKeysComparable(s: string, t: string)
    ensures KeyLess(NaturalSortKey(s), NaturalSortKey(t)).Some?
  {
    AlternatingComparable(NaturalSortKey(s), NaturalSortKey(t), 0);
  }

  lemma {:induction false} StringLessAsymmetric(x: string, y: string)
    ensures StringLess(x, y) ==> !StringLess(y, x)
  {
    if x != [] && y != [] && x[0] == y[0] {
      StringLessAsymmetric(x[1..], y[1..]);
    }
  }

  /** The key order is asymmetric. */
  lemma {:induction false} KeyLessAsymmetric(a: seq<Part>, b: seq<Part>)
    requires KeyLess(a, b) == Some(true)
    ensures KeyLess(b, a) == Some(false)
  {
    if a != [] && b != [] {
      if a[0] == b[0] {
        KeyLessAsymmetric(a[1..], b[1..]);
      } else if a[0].Text? {
        StringLessAsymmetric(a[0].text, b[0].text);
      }
    }
  }

  lemma SplitImage2()
    ensures IsRunSplit(["image_", "2", ".png"], "image_2.png")
  {
  }

  lemma SplitImage10()
    ensures IsRunSplit(["image_", "10", ".png"], "image_10.png")
  {
  }

  lemma KeyPartsOfImageNames()
    ensures KeyPart("image_") == Text("image_") && KeyPart(".png") == Text(".png")
    ensures KeyPart("2") == Num(2) && KeyPart("10") == Num(10)
  {
  }

  lemma KeyImage2Pieces()
    ensures NaturalSortKey("image_2.png") == seq(3, i requires 0 <= i < 3 => KeyPart(["image_", "2", ".png"][i]))
  {
    SplitImage2();
    SplitUnique(["image_", "2", ".png"], "image_2.png");
  }

  lemma KeyImage2Parts()
    ensures seq(3, i requires 0 <= i < 3 => KeyPart(["image_", "2", ".png"][i])) == [Text("image_"), Num(2), Text(".png")]
  {
    KeyPartsOfImageNames();
  }

  lemma KeyImage2()
    ensures NaturalSortKey("image_2.png") == [Text("image_"), Num(2), Text(".png")]
  {
    KeyImage2Pieces();
    KeyImage2Parts();
  }

  lemma KeyImage10Pieces()
    ensures NaturalSortKey("image_10.png") == seq(3, i requires 0 <= i < 3 => KeyPart(["image_", "10", ".png"][i]))
  {
    SplitImage10();
    SplitUnique(["image_", "10", ".png"], "image_10.png");
  }

  lemma KeyImage10Parts()
    ensures seq(3, i requires 0 <= i < 3 => KeyPart(["image_", "10", ".png"][i])) == [Text("image_"), Num(10), Text(".png")]
  {
    KeyPartsOfImageNames();
  }

  lemma KeyImage10()
    ensures NaturalSortKey("image_10.png") == [Text("image_"), Num(10), Text(".png")]
  {
    KeyImage10Pieces();
    KeyImage10Parts();
  }

  /** A digit-free prefix and a digit run in front of a rest that does not start with a digit split off first. */
  lemma SplitAroundNumber(p: string, d: string, q: string)
    requires NoDigits(p) && IsDigitString(d) && (q == [] || !IsDigit(q[0]))
    ensures SplitDigits(p + d + q) == [p, d] + SplitDigits(q)
  {
    SplitCons(p, d, SplitDigits(q), q);
    SplitUnique([p, d] + SplitDigits(q), p + d + q);
  }

  /**
   * The key of a digit-free prefix, a digit run and a rest that does not start
   * with a digit: the prefix's text, the run's value, then the parts of the rest.
   */
  lemma KeyAroundNumber(p: string, d: string, q: string)
    requires NoDigits(p) && IsDigitString(d) && (q == [] || !IsDigit(q[0]))
    ensures |NaturalSortKey(p + d + q)| == |SplitDigits(q)| + 2
    ensures NaturalSortKey(p + d + q)[0] == Text(Lower(p))
    ensures NaturalSortKey(p + d + q)[1] == Num(DecimalValue(d))
    ensures forall i :: 2 <= i < |SplitDigits(q)| + 2 ==> NaturalSortKey(p + d + q)[i] == KeyPart(SplitDigits(q)[i - 2])
  {
    var pieces := SplitDigits(p + d + q);
    SplitAroundNumber(p, d, q);
    assert pieces[0] == p && pieces[1] == d;
    assert !IsDigitString(p) by {
      if p != [] {
        assert !IsDigit(p[0]);
      }
    }
  }

  /**
   * Two names that differ only in the number after a common digit-free prefix,
   * the number followed by the same rest, are ordered by the value of that
   * number: the first sorts before the second exactly when m < n.
   */
  lemma NumericOrder(p: string, q: string, m: nat, n: nat)
    requires NoDigits(p) && (q == [] || !IsDigit(q[0]))
    ensures KeyLess(NaturalSortKey(p + DecimalString(m) + q), NaturalSortKey(p + DecimalString(n) + q)) == Some(m < n)
  {
    if m != n {
      var a, b := NaturalSortKey(p + DecimalString(m) + q), NaturalSortKey(p + DecimalString(n) + q);
      KeyAroundNumber(p, DecimalString(m), q);
      KeyAroundNumber(p, DecimalString(n), q);
      DecimalRoundTrip(m);
      DecimalRoundTrip(n);
      assert a[1..][0] == Num(m) && b[1..][0] == Num(n);
    }
  }

  /** Names are ordered by the value of their numbers: "image_2.png" before "image_10.png". */
  lemma NumericOrdering()
    ensures KeyLess(NaturalSortKey("image_2.png"), NaturalSortKey("image_10.png")) == Some(true)
  {
    assert DecimalString(2) == "2";
    assert DecimalString(10) == "10";
    assert "image_2.png" == "image_" + DecimalString(2) + ".png";
    assert "image_10.png" == "image_" + DecimalString(10) + ".png";
    NumericOrder("image_", ".png", 2, 10);
  }
}
