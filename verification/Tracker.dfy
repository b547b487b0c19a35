/** What the tracker middleware writes of a request's strings (middleware/tracker.go): values cut at a rune
    boundary, and masked. */
module Tracker {
  import opened Text
  import opened Decimal

  // ---------------------------------------------------------------------------------------------
  // UTF-8 (RFC 3629)

  predicate Tail(c: byte) {
    0x80 <= c <= 0xbf
  }

  /** utf8.RuneStart */
  predicate RuneStart(c: byte) {
    !Tail(c)
  }

  /** The length of the character s begins with, 0 if there is none (the grammar in section 4 of RFC 3629). */
  function RuneSize(s: Bytes): (n: nat)
    ensures n <= |s| && n <= 4
    ensures n > 0 ==> RuneStart(s[0]) && forall i :: 1 <= i < n ==> Tail(s[i])
  {
    if s == [] then 0
    else if s[0] <= 0x7f then 1
    else if 0xc2 <= s[0] <= 0xdf then (if |s| >= 2 && Tail(s[1]) then 2 else 0)
    else if 0xe0 <= s[0] <= 0xef then (if |s| >= 3 && SecondOf3(s[0], s[1]) && Tail(s[2]) then 3 else 0)
    else if 0xf0 <= s[0] <= 0xf4 then
      (if |s| >= 4 && SecondOf4(s[0], s[1]) && Tail(s[2]) && Tail(s[3]) then 4 else 0)
    else 0
  }

  predicate SecondOf3(first: byte, c: byte) {
    (if first == 0xe0 then 0xa0 else 0x80) <= c <= (if first == 0xed then 0x9f else 0xbf)
  }

  predicate SecondOf4(first: byte, c: byte) {
    (if first == 0xf0 then 0x90 else 0x80) <= c <= (if first == 0xf4 then 0x8f else 0xbf)
  }

  /** A sequence of characters. */
  predicate Valid(s: Bytes)
    decreases |s|
  {
    s == [] || (RuneSize(s) > 0 && Valid(s[RuneSize(s)..]))
  }

  /** A character is recognised by its own bytes alone. */
  lemma {:induction false} RuneSizePrefix(s: Bytes, k: nat)
    requires k <= |s|
    ensures RuneSize(s[..k]) == if RuneSize(s) <= k then RuneSize(s) else 0
  {
  }

  /** A valid string is cut into valid halves exactly where a character starts. */
  lemma {:induction false} ValidCutIffRuneStart(s: Bytes, k: nat)
    requires Valid(s) && k <= |s|
    ensures k == |s| || RuneStart(s[k]) ==> Valid(s[..k]) && Valid(s[k..])
    ensures k < |s| && !RuneStart(s[k]) ==> !Valid(s[..k]) && !Valid(s[k..])
    decreases |s|
  {
    if k > 0 {
      var n := RuneSize(s);
      RuneSizePrefix(s, k);
      if k < n {
        assert !RuneStart(s[k]);
        assert RuneSize(s[k..]) == 0;
      } else {
        var j: nat := k - n;
        ValidCutIffRuneStart(s[n..], j);
        assert s[n..][..j] == s[..k][n..];
        assert s[n..][j..] == s[k..];
        assert j < |s[n..]| ==> s[n..][j] == s[k];
      }
    } else if s != [] {
      assert s[0..] == s;
    }
  }

  // ---------------------------------------------------------------------------------------------
  // Cutting

  /** truncateString: the longest prefix within the limit that ends where a character starts. */
  method TruncateString(s: Bytes, maxLength: nat) returns (prefix: Bytes)
    ensures |s| <= maxLength ==> prefix == s
    ensures |s| > maxLength ==>
              && prefix <= s && |prefix| <= maxLength
              && (|prefix| > 0 ==> RuneStart(s[|prefix|]))
              && forall k :: |prefix| < k <= maxLength ==> !RuneStart(s[k])
    ensures prefix == Truncated(s, maxLength)
  {
    if |s| <= maxLength {
      return s;
    }
    var n := maxLength;
    while n > 0 && !RuneStart(s[n])
      invariant 0 <= n <= maxLength < |s|
      invariant forall k :: n < k <= maxLength ==> !RuneStart(s[k])
      invariant CutAt(s, n) == CutAt(s, maxLength)
    {
      n := n - 1;
    }
    return s[..n];
  }

  function CutAt(s: Bytes, n: nat): (k: nat)
    requires n < |s|
    ensures k <= n && (k > 0 ==> RuneStart(s[k])) && forall j :: k < j <= n ==> !RuneStart(s[j])
  {
    if n == 0 || RuneStart(s[n]) then n else CutAt(s, n - 1)
  }

  function Truncated(s: Bytes, maxLength: nat): (prefix: Bytes)
    ensures prefix <= s
  {
    if |s| <= maxLength then s else s[..CutAt(s, maxLength)]
  }

  /** Of a valid string longer than the limit, the longest valid prefix within the limit is kept, and what is
      cut off is valid too. */
  lemma {:induction false} LongestValidPrefix(s: Bytes, maxLength: nat)
    requires Valid(s) && |s| > maxLength
    ensures var p := Truncated(s, maxLength);
            && |p| <= maxLength && Valid(p) && Valid(s[|p|..])
            && forall k :: |p| < k <= maxLength ==> !Valid(s[..k]) && !Valid(s[k..])
  {
    var p := Truncated(s, maxLength);
    assert Valid(s) && s[0..] == s ==> RuneStart(s[0]);
    ValidCutIffRuneStart(s, |p|);
    forall k | |p| < k <= maxLength ensures !Valid(s[..k]) && !Valid(s[k..]) {
      ValidCutIffRuneStart(s, k);
    }
  }

  // ---------------------------------------------------------------------------------------------
  // The note on what was cut

  function Ellipsis(): Bytes { Ascii(" ... (") }

  function More(): Bytes { Ascii(" more)") }

  /** cutString */
  function CutString(v: Bytes, maxLength: nat): Bytes {
    var prefix := Truncated(v, maxLength);
    prefix + Ellipsis() + Digits(|v| - |prefix|) + More()
  }

  /** Reading the note back: the digits before " more)", and what is in front of " ... (". */
  function ReadNote(s: Bytes): Option<(Bytes, nat)> {
    if |s| < 6 || s[|s| - 6..] != More() then None
    else
      var t := s[..|s| - 6];
      var n := TrailingDigits(t);
      var front := t[..|t| - n];
      if |front| < 6 || front[|front| - 6..] != Ellipsis() then None
      else Some((front[..|front| - 6], DigitsValue(t[|t| - n..])))
  }

  function TrailingDigits(s: Bytes): (n: nat)
    ensures n <= |s| && AllDigits(s[|s| - n..])
  {
    if s == [] || !Digit(s[|s| - 1]) then 0
    else
      var n := TrailingDigits(s[..|s| - 1]);
      assert s[|s| - 1 - n..] == s[..|s| - 1][|s| - 1 - n..] + [s[|s| - 1]];
      1 + n
  }

  lemma {:induction false} TrailingDigitsOf(front: Bytes, digits: Bytes)
    requires AllDigits(digits) && (front != [] ==> !Digit(front[|front| - 1]))
    ensures TrailingDigits(front + digits) == |digits|
    decreases |digits|
  {
    if digits == [] {
      assert front + digits == front;
    } else {
      var s, shorter := front + digits, digits[..|digits| - 1];
      assert s[|s| - 1] == digits[|digits| - 1] && digits[|digits| - 1] in digits;
      assert s[..|s| - 1] == front + shorter;
      assert AllDigits(shorter) && Digit(s[|s| - 1]) by {
        assert forall c <- shorter :: c in digits;
      }
      hide AllDigits, Digit;
      TrailingDigitsOf(front, shorter);
    }
  }

  /** The note is exact: from the text one can read the prefix back, and how many bytes are missing. */
  lemma {:induction false} NoteIsExact(v: Bytes, maxLength: nat)
    ensures var prefix := Truncated(v, maxLength);
            ReadNote(CutString(v, maxLength)) == Some((prefix, |v| - |prefix|))
  {
    var prefix := Truncated(v, maxLength);
    var n := |v| - |prefix|;
    var front, digits := prefix + Ellipsis(), Digits(n);
    assert |Ellipsis()| == 6 && |More()| == 6;
    assert Ellipsis()[5] == CharByte('(') && !Digit(Ellipsis()[5]);
    hide Ellipsis, More;
    TrailingDigitsOf(front, digits);
    DigitsRoundTrip(n);
    hide Digits, DigitsValue, TrailingDigits, Truncated;
    var s, t := CutString(v, maxLength), front + digits;
    assert s == t + More();
    assert s[|s| - 6..] == More() && s[..|s| - 6] == t;
    assert t[..|front|] == front && t[|front|..] == digits;
    assert front[|front| - 6..] == Ellipsis() && front[..|front| - 6] == prefix;
  }

  // ---------------------------------------------------------------------------------------------
  // Fields

  function Stars(): Bytes { Ascii("***") }

  function Field(k: Bytes, v: Bytes, mask: Bytes -> bool, maxLength: int): Bytes {
    if mask(k) then Stars()
    else if maxLength > 0 && |v| > maxLength then CutString(v, maxLength)
    else v
  }

  /** convertMap: None is the nil map; the entries come in any order. */
  method ConvertMap(data: map<Bytes, Bytes>, mask: Bytes -> bool, maxLength: int) returns (m: Option<map<Bytes, Bytes>>)
    ensures m.None? <==> data == map[]
    ensures m.Some? ==> forall k <- data :: k in m.value && (mask(k) ==> m.value[k] == Ascii("***"))
    ensures m.Some? ==> m.value == map k <- data :: Field(k, data[k], mask, maxLength)
  {
    hide Ascii, Ellipsis, More, Digits, Truncated;
    if |data| == 0 {
      return None;
    }
    var out: map<Bytes, Bytes> := map[];
    var left := data.Keys;
    while left != {}
      invariant left <= data.Keys
      invariant out == map k | k in data && k !in left :: Field(k, data[k], mask, maxLength)
      decreases left
    {
      var k :| k in left;
      var v := data[k];
      if mask(k) {
        v := Stars();
      } else if maxLength > 0 && |v| > maxLength {
        var prefix := TruncateString(v, maxLength);
        v := prefix + Ellipsis() + Digits(|v| - |prefix|) + More();
      }
      out := out[k := v];
      left := left - {k};
    }
    return Some(out);
  }

  /** A masked value is never shown, whatever it is; of another one, what is shown is itself, or as long a prefix of it
      as fits, with the exact number of bytes that are missing. */
  lemma {:induction false} MaskedIsNeverShown(k: Bytes, v: Bytes, v': Bytes, mask: Bytes -> bool, maxLength: int)
    ensures mask(k) ==> Field(k, v, mask, maxLength) == Ascii("***") == Field(k, v', mask, maxLength)
    ensures !mask(k) && (maxLength <= 0 || |v| <= maxLength) ==> Field(k, v, mask, maxLength) == v
    ensures !mask(k) && 0 < maxLength < |v| ==>
              var prefix := Truncated(v, maxLength);
              && prefix <= v && |prefix| <= maxLength
              && ReadNote(Field(k, v, mask, maxLength)) == Some((prefix, |v| - |prefix|))
  {
    if !mask(k) && 0 < maxLength < |v| {
      NoteIsExact(v, maxLength);
    }
    hide CutString, ReadNote;
  }
}
