/**
 * The slice of PHP that the wrapper's decision logic relies on: the values it
 * stores and forwards, loose comparison against an integer constant (what a
 * `switch` does), coercion of a value to an `int` parameter, and the
 * built-ins `explode`, `implode`, `stripos`, `array_pad` and `array_splice`.
 */
module Php {
  import opened Wrappers

  /** A PHP value, restricted to the kinds the wrapper handles. */
  datatype Value = Null | Bool(b: bool) | Integer(n: int) | Str(s: string) | List(items: seq<Value>)

  predicate IsDigit(c: char) {
    '0' <= c <= '9'
  }

  predicate AllDigits(s: string) {
    forall i :: 0 <= i < |s| ==> IsDigit(s[i])
  }

  /** The number written by a string of decimal digits, leading zeros allowed. */
  function DecimalValue(s: string): nat
    requires AllDigits(s)
  {
    if s == [] then 0
    else DecimalValue(s[..|s| - 1]) * 10 + (s[|s| - 1] as int - '0' as int)
  }

  /** Two or three digits are read most significant first. */
  lemma {:induction false} DecimalValueOfDigits(s: string)
    requires AllDigits(s) && 2 <= |s| <= 3
    ensures |s| == 2 ==> DecimalValue(s) == 10 * (s[0] as int - '0' as int) + (s[1] as int - '0' as int)
    ensures |s| == 3 ==> DecimalValue(s) == 100 * (s[0] as int - '0' as int) + 10 * (s[1] as int - '0' as int) + (s[2] as int - '0' as int)
  {
    assert DecimalValue(s[..1]) == s[0] as int - '0' as int by {
      assert s[..1][..0] == [];
    }
    if |s| == 3 {
      assert s[..2][..1] == s[..1];
    }
  }

  /** A string that PHP treats as an integer in a comparison or an `int` parameter. */
  predicate IsDecimalString(s: string) {
    s != [] && AllDigits(s)
  }

  /**
   * `v == k` with PHP's loose comparison, for a non-negative integer `k`.
   * Strings are compared numerically when they are decimal strings; any other
   * string never equals a non-negative integer here, and an array never equals
   * an integer.
   */
  function LooselyEquals(v: Value, k: nat): (r: bool)
    ensures v.List? ==> !r
    ensures v.Str? && !IsDecimalString(v.s) ==> !r
  {
    match v
    case Null => k == 0
    case Bool(b) => b == (k != 0)
    case Integer(n) => n == k
    case Str(s) => IsDecimalString(s) && DecimalValue(s) == k
    case List(_) => false
  }

  /** A leading zero does not change the number a digit string writes. */
  lemma {:induction false} DecimalValueLeadingZero(s: string)
    requires AllDigits(s)
    ensures AllDigits("0" + s) && DecimalValue("0" + s) == DecimalValue(s)
    decreases |s|
  {
    if s == [] {
      assert ("0" + s)[..0] == [];
    } else {
      var t := s[..|s| - 1];
      assert ("0" + s)[..|s|] == "0" + t;
      DecimalValueLeadingZero(t);
    }
  }

  /** PHP compares digit strings numerically, so `"04" == 4` just as `"4" == 4`. */
  lemma LeadingZerosIgnored(s: string, k: nat)
    requires IsDecimalString(s)
    ensures LooselyEquals(Str("0" + s), k) <==> LooselyEquals(Str(s), k)
  {
    DecimalValueLeadingZero(s);
  }

  /**
   * The integer an internal function receives when `v` is passed to an `int`
   * parameter, or None when PHP refuses the argument with a TypeError.
   */
  function IntArgument(v: Value): (r: Option<int>)
    ensures r.None? <==> v.List? || (v.Str? && !IsDecimalString(v.s))
    ensures !v.Bool? ==> forall k: nat :: LooselyEquals(v, k) ==> r == Some(k)
  {
    match v
    case Null => Some(0)
    case Bool(b) => Some(if b then 1 else 0)
    case Integer(n) => Some(n)
    case Str(s) => if IsDecimalString(s) then Some(DecimalValue(s)) else None
    case List(_) => None
  }

  /** `$s[$at .. $at + strlen($pattern)] === $pattern` */
  predicate OccursAt(s: string, pattern: string, at: nat) {
    at + |pattern| <= |s| && s[at..at + |pattern|] == pattern
  }

  /** The first position at or after `from` where `pattern` occurs in `s`. */
  function IndexOf(s: string, pattern: string, from: nat): (r: Option<nat>)
    requires pattern != [] && from <= |s|
    ensures r.Some? ==> from <= r.value && OccursAt(s, pattern, r.value)
    ensures r.Some? ==> forall j :: from <= j < r.value ==> !OccursAt(s, pattern, j)
    ensures r.None? ==> forall j :: from <= j ==> !OccursAt(s, pattern, j)
    decreases |s| - from
  {
    if from + |pattern| > |s| then None
    else if s[from..from + |pattern|] == pattern then Some(from)
    else IndexOf(s, pattern, from + 1)
  }

  predicate Contains(s: string, pattern: string) {
    exists j :: 0 <= j <= |s| && OccursAt(s, pattern, j)
  }

  /** An occurrence inside a prefix is an occurrence in the whole string. */
  lemma {:induction false} OccursInPrefix(s: string, pattern: string, i: nat, j: nat)
    requires i <= |s| && OccursAt(s[..i], pattern, j)
    ensures OccursAt(s, pattern, j) && j + |pattern| <= i
  {
    assert s[..i][j..j + |pattern|] == s[j..j + |pattern|];
  }

  /** `explode($separator, $s)`: the pieces of `s` between the occurrences of `separator`, left to right. */
  function Explode(separator: string, s: string): (parts: seq<string>)
    requires separator != []
    ensures |parts| >= 1
    decreases |s|
  {
    match IndexOf(s, separator, 0)
    case None => [s]
    case Some(i) => [s[..i]] + Explode(separator, s[i + |separator|..])
  }

  /** No piece of an exploded string contains the separator. */
  lemma {:induction false} ExplodePiecesFree(separator: string, s: string)
    requires separator != []
    ensures forall k :: 0 <= k < |Explode(separator, s)| ==> !Contains(Explode(separator, s)[k], separator)
    decreases |s|
  {
    match IndexOf(s, separator, 0)
    case None =>
    case Some(i) =>
      var head, rest := s[..i], s[i + |separator|..];
      forall j | OccursAt(head, separator, j) ensures false {
        OccursInPrefix(s, separator, i, j);
      }
      ExplodePiecesFree(separator, rest);
      assert Explode(separator, s) == [head] + Explode(separator, rest);
  }

  /** `implode($separator, $parts)` */
  function Implode(separator: string, parts: seq<string>): (s: string)
  {
    if parts == [] then ""
    else if |parts| == 1 then parts[0]
    else parts[0] + separator + Implode(separator, parts[1..])
  }

  /** One step of `explode`: the piece before the first separator, then the rest exploded. */
  lemma {:induction false} ExplodeStep(separator: string, s: string, i: nat)
    requires separator != [] && IndexOf(s, separator, 0) == Some(i)
    ensures Explode(separator, s) == [s[..i]] + Explode(separator, s[i + |separator|..])
  {
  }

  /** Exploding and imploding again on the same separator gives back the string. */
  lemma {:induction false} ImplodeExplode(separator: string, s: string)
    requires separator != []
    ensures Implode(separator, Explode(separator, s)) == s
    decreases |s|
  {
    match IndexOf(s, separator, 0)
    case None =>
    case Some(i) =>
      var head, rest := s[..i], s[i + |separator|..];
      ImplodeExplode(separator, rest);
      var tail := Explode(separator, rest);
      var parts := [head] + tail;
      ExplodeStep(separator, s, i);
      assert parts[1..] == tail;
      assert Implode(separator, parts) == head + separator + Implode(separator, tail);
      assert s == head + s[i..i + |separator|] + rest;
  }

  /** A string without an occurrence of the separator explodes into itself alone. */
  lemma {:induction false} ExplodeWithout(separator: string, s: string)
    requires separator != [] && !Contains(s, separator)
    ensures Explode(separator, s) == [s]
  {
  }

  /** When the first occurrence of the separator follows `head`, `head` is the first piece. */
  lemma {:induction false} ExplodeAfter(separator: string, head: string, rest: string)
    requires separator != []
    requires forall j :: 0 <= j < |head| ==> !OccursAt(head + separator + rest, separator, j)
    ensures Explode(separator, head + separator + rest) == [head] + Explode(separator, rest)
  {
    var s := head + separator + rest;
    assert OccursAt(s, separator, |head|);
    var i := IndexOf(s, separator, 0);
    assert i == Some(|head|);
    assert s[..|head|] == head;
    assert s[|head| + |separator|..] == rest;
  }

  predicate NoneOf(s: string, c: char) {
    forall i :: 0 <= i < |s| ==> s[i] != c
  }

  /** A head without the separator's first character is the first piece. */
  lemma {:induction false} ExplodeAfterFree(separator: string, head: string, rest: string)
    requires separator != [] && NoneOf(head, separator[0])
    ensures Explode(separator, head + separator + rest) == [head] + Explode(separator, rest)
  {
    var s := head + separator + rest;
    assert forall j :: 0 <= j < |head| ==> !OccursAt(s, separator, j);
    ExplodeAfter(separator, head, rest);
  }

  /** A string without the separator's first character holds no occurrence of it. */
  lemma {:induction false} NoFirstCharNoOccurrence(separator: string, s: string)
    requires separator != [] && NoneOf(s, separator[0])
    ensures !Contains(s, separator)
  {
  }

  /** Appending to a string keeps the occurrences that lie wholly inside it. */
  lemma {:induction false} OccursInExtension(a: string, t: string, pattern: string, j: nat)
    requires j + |pattern| <= |a|
    ensures OccursAt(a + t, pattern, j) <==> OccursAt(a, pattern, j)
  {
    assert (a + t)[j..j + |pattern|] == a[j..j + |pattern|];
  }

  /** The first occurrence is the one with no occurrence before it. */
  lemma {:induction false} IndexOfIs(s: string, pattern: string, i: nat)
    requires pattern != [] && OccursAt(s, pattern, i)
    requires forall j :: 0 <= j < i ==> !OccursAt(s, pattern, j)
    ensures IndexOf(s, pattern, 0) == Some(i)
  {
  }

  /**
   * When the separator's first character does not recur in it, no occurrence
   * starts inside `a` and runs into a separator placed after `a`.
   */
  lemma {:induction false} NoStraddle(separator: string, a: string, rest: string, j: nat)
    requires separator != [] && NoneOf(separator[1..], separator[0])
    requires j < |a| < j + |separator|
    ensures !OccursAt(a + separator + rest, separator, j)
  {
    var s := a + separator + rest;
    var m := |a| - j;
    if j + |separator| <= |s| {
      assert s[j..j + |separator|][m] == separator[0];
      assert separator[m] != separator[0] by {
        assert separator[1..][m - 1] == separator[m];
      }
    }
  }

  /** Cutting a joined string inside its left part. */
  lemma {:induction false} SlicesOfConcat(a: string, t: string, k: nat)
    requires k <= |a|
    ensures (a + t)[..k] == a[..k]
    ensures (a + t)[k..] == a[k..] + t
  {
  }

  /** A left part without the separator is the first piece of the joined string. */
  lemma {:induction false} ExplodeConcatWithout(separator: string, a: string, rest: string)
    requires separator != [] && NoneOf(separator[1..], separator[0])
    requires IndexOf(a, separator, 0).None?
    ensures Explode(separator, a + separator + rest) == Explode(separator, a) + Explode(separator, rest)
  {
    var s := a + separator + rest;
    forall j | 0 <= j < |a| ensures !OccursAt(s, separator, j) {
      if j + |separator| <= |a| {
        assert s == a + (separator + rest);
        OccursInExtension(a, separator + rest, separator, j);
      } else {
        NoStraddle(separator, a, rest, j);
      }
    }
    ExplodeAfter(separator, a, rest);
    ExplodeWithout(separator, a);
  }

  /** The first separator of the left part is the first separator of the joined string. */
  lemma {:induction false} FirstSeparatorOfConcat(separator: string, a: string, t: string, i: nat)
    requires separator != [] && IndexOf(a, separator, 0) == Some(i)
    ensures IndexOf(a + t, separator, 0) == Some(i)
  {
    forall j | 0 <= j <= i ensures OccursAt(a + t, separator, j) <==> OccursAt(a, separator, j) {
      OccursInExtension(a, t, separator, j);
    }
    IndexOfIs(a + t, separator, i);
  }

  lemma {:induction false} AppendAssoc<T>(p: seq<T>, q: seq<T>, r: seq<T>)
    ensures p + (q + r) == (p + q) + r
  {
  }

  lemma {:induction false} ConsAppend<T>(x: T, p: seq<T>, q: seq<T>)
    ensures [x] + (p + q) == ([x] + p) + q
  {
  }

  /** The first piece of the left part is the first piece of the joined string. */
  lemma {:induction false} ExplodeConcatStep(separator: string, a: string, rest: string, i: nat)
    requires separator != [] && IndexOf(a, separator, 0) == Some(i)
    ensures i + |separator| <= |a|
    ensures Explode(separator, a + separator + rest)
            == [a[..i]] + Explode(separator, a[i + |separator|..] + separator + rest)
  {
    var s, t := a + separator + rest, separator + rest;
    assert s == a + t;
    FirstSeparatorOfConcat(separator, a, t, i);
    ExplodeStep(separator, s, i);
    SlicesOfConcat(a, t, i);
    SlicesOfConcat(a, t, i + |separator|);
    assert s[i + |separator|..] == a[i + |separator|..] + separator + rest;
  }

  /**
   * For a separator whose first character does not recur in it (such as `", "`
   * or `" "`), no occurrence straddles a separator placed between two strings,
   * so exploding the joined string explodes each side.
   */
  lemma {:induction false} ExplodeConcat(separator: string, a: string, rest: string)
    requires separator != [] && NoneOf(separator[1..], separator[0])
    ensures Explode(separator, a + separator + rest) == Explode(separator, a) + Explode(separator, rest)
    decreases |a|
  {
    match IndexOf(a, separator, 0)
    case None =>
      ExplodeConcatWithout(separator, a, rest);
    case Some(i) =>
      var after := a[i + |separator|..];
      ExplodeConcatStep(separator, a, rest, i);
      ExplodeStep(separator, a, i);
      ExplodeConcat(separator, after, rest);
      ConsAppend(a[..i], Explode(separator, after), Explode(separator, rest));
  }

  function LowerAscii(c: char): (l: char)
  {
    if 'A' <= c <= 'Z' then (c as int - 'A' as int + 'a' as int) as char else c
  }

  function Lower(s: string): (l: string)
    ensures |l| == |s|
  {
    seq(|s|, i requires 0 <= i < |s| => LowerAscii(s[i]))
  }

  /** `stripos($haystack, $needle)`: the first position of `needle`, ignoring ASCII case. */
  function StrIPos(haystack: string, needle: string): (r: Option<nat>)
    requires needle != []
    ensures r.Some? <==> exists j :: OccursAt(Lower(haystack), Lower(needle), j)
  {
    IndexOf(Lower(haystack), Lower(needle), 0)
  }

  /** `array_pad($items, $size, $fill)` for a non-negative size: pads on the right. */
  function ArrayPad(items: seq<Value>, size: nat, fill: Value): (r: seq<Value>)
    ensures |r| == if |items| < size then size else |items|
    ensures r[..|items|] == items
    ensures forall i :: |items| <= i < |r| ==> r[i] == fill
  {
    if |items| < size then items + seq(size - |items|, _ => fill) else items
  }

  /**
   * `array_splice($items, $offset, $length, $replacement)` on a list, for an
   * offset and a length inside the list: the new value of `$items`.
   */
  function ArraySplice(items: seq<Value>, offset: nat, length: nat, replacement: seq<Value>): (r: seq<Value>)
    requires offset + length <= |items|
    ensures |r| == |items| - length + |replacement|
    ensures r[..offset] == items[..offset]
    ensures r[offset..offset + |replacement|] == replacement
    ensures r[offset + |replacement|..] == items[offset + length..]
  {
    items[..offset] + replacement + items[offset + length..]
  }
}
