/** Go strings and byte slices: sequences of bytes, with the library operations the model needs. */
module Text {

  type byte = b: int | 0 <= b < 256
  type Bytes = seq<byte>

  datatype Option<+T> = None | Some(value: T) {
    function GetOr(default: T): T {
      match this
      case Some(v) => v
      case None => default
    }
  }

  /** The bytes of an ASCII literal. */
  function Ascii(s: string): (r: Bytes)
    requires forall c <- s :: c < 128 as char
    ensures |r| == |s|
  {
    seq(|s|, i requires 0 <= i < |s| => CharByte(s[i]))
  }

  function CharByte(c: char): byte {
    if c < 128 as char then c as int else 0
  }

  // ---------------------------------------------------------------------------------------------
  // IndexByte, Split, Join

  /** strings.IndexByte, with |s| for "not found". */
  function IndexByte(s: Bytes, c: byte): (i: nat)
    ensures i <= |s| && c !in s[..i] && (i < |s| ==> s[i] == c)
  {
    if s == [] then 0
    else if s[0] == c then 0
    else
      assert forall k :: 0 <= k < IndexByte(s[1..], c) ==> s[1 + k] == s[1..][k];
      1 + IndexByte(s[1..], c)
  }

  /** bytes.Split with a separator of one byte. */
  function Split(s: Bytes, sep: byte): (parts: seq<Bytes>)
    ensures parts != []
  {
    var i := IndexByte(s, sep);
    if i == |s| then [s] else [s[..i]] + Split(s[i + 1..], sep)
  }

  /** bytes.Join with a separator of one byte. */
  function Join(parts: seq<Bytes>, sep: byte): Bytes {
    if parts == [] then []
    else if |parts| == 1 then parts[0]
    else parts[0] + [sep] + Join(parts[1..], sep)
  }

  lemma {:induction false} IndexByteAt(a: Bytes, c: byte, b: Bytes)
    requires c !in a
    ensures IndexByte(a + [c] + b, c) == |a|
  {
    if a != [] {
      IndexByteAt(a[1..], c, b);
      assert (a + [c] + b)[1..] == a[1..] + [c] + b;
    }
  }

  lemma IndexByteAbsent(s: Bytes, c: byte)
    requires c !in s
    ensures IndexByte(s, c) == |s|
  {
  }

  /** Split undoes Join. */
  lemma {:induction false} SplitJoin(parts: seq<Bytes>, sep: byte)
    requires parts != [] && forall p <- parts :: sep !in p
    ensures Split(Join(parts, sep), sep) == parts
  {
    var p := parts[0];
    if |parts| == 1 {
      IndexByteAbsent(p, sep);
    } else {
      var rest := Join(parts[1..], sep);
      IndexByteAt(p, sep, rest);
      var s := p + [sep] + rest;
      assert s[..|p|] == p && s[|p| + 1..] == rest;
      SplitJoin(parts[1..], sep);
    }
  }

  lemma {:induction false} JoinAvoids(parts: seq<Bytes>, sep: byte, c: byte)
    requires c != sep && forall p <- parts :: c !in p
    ensures c !in Join(parts, sep)
  {
    if |parts| > 1 {
      JoinAvoids(parts[1..], sep, c);
    }
  }

  // ---------------------------------------------------------------------------------------------
  // Big-endian integers

  function PutUint16(n: nat): (r: Bytes)
    ensures |r| == 2
  {
    [n / 0x100 % 0x100, n % 0x100]
  }

  function PutUint32(n: nat): (r: Bytes)
    ensures |r| == 4
  {
    var n8 := n / 0x100;
    var n16 := n8 / 0x100;
    [n16 / 0x100 % 0x100, n16 % 0x100, n8 % 0x100, n % 0x100]
  }

  function Shifted(high: nat, low: nat): nat {
    0x100 * high + low
  }

  function Uint16(s: Bytes): (n: nat)
    requires |s| >= 2
    ensures n < 0x1_0000
  {
    Shifted(s[0], s[1])
  }

  function Uint32(s: Bytes): (n: nat)
    requires |s| >= 4
    ensures n < 0x1_0000_0000
  {
    Shifted(Shifted(Shifted(s[0], s[1]), s[2]), s[3])
  }

  lemma Uint32RoundTrip(n: nat, after: Bytes)
    requires n < 0x1_0000_0000
    ensures Uint32(PutUint32(n) + after) == n
  {
    var n8, n16, n24 := n / 0x100, n / 0x100 / 0x100, n / 0x100 / 0x100 / 0x100;
    assert n24 < 0x100 && Shifted(n24, n16 % 0x100) == n16 && Shifted(n16, n8 % 0x100) == n8;
  }

  lemma Uint16RoundTrip(n: nat, after: Bytes)
    requires n < 0x1_0000
    ensures Uint16(PutUint16(n) + after) == n
  {
  }

  // ---------------------------------------------------------------------------------------------
  // Letter case and header names

  function LowerByte(c: byte): byte {
    if 'A' as int <= c <= 'Z' as int then c + 32 else c
  }

  /** strings.ToLower on ASCII. */
  function Lower(s: Bytes): (r: Bytes)
    ensures |r| == |s| && forall i :: 0 <= i < |s| ==> r[i] == LowerByte(s[i])
  {
    seq(|s|, i requires 0 <= i < |s| => LowerByte(s[i]))
  }

  /** A byte of a header field name (token, section 5.6.2 of RFC 9110). */
  predicate TokenByte(c: byte) {
    || 'a' as int <= c <= 'z' as int
    || 'A' as int <= c <= 'Z' as int
    || '0' as int <= c <= '9' as int
    || c in {33, 35, 36, 37, 38, 39, 42, 43, 45, 46, 94, 95, 96, 124, 126}
  }

  function CanonicalByte(upper: bool, c: byte): byte {
    if upper && 'a' as int <= c <= 'z' as int then c - 32
    else if !upper && 'A' as int <= c <= 'Z' as int then c + 32
    else c
  }

  function CanonicalFrom(upper: bool, s: Bytes): Bytes
    decreases s
  {
    if s == [] then [] else [CanonicalByte(upper, s[0])] + CanonicalFrom(s[0] == '-' as int, s[1..])
  }

  /** textproto.CanonicalMIMEHeaderKey: http.Header stores every name in this form. */
  function Canonical(s: Bytes): Bytes {
    if forall c <- s :: TokenByte(c) then CanonicalFrom(true, s) else s
  }

  /** A name as http.Header holds it. */
  predicate CanonicalName(s: Bytes) {
    s != [] && (forall c <- s :: TokenByte(c)) && Canonical(s) == s
  }

  lemma {:induction false} CanonicalFromLower(upper: bool, s: Bytes)
    ensures CanonicalFrom(upper, Lower(s)) == CanonicalFrom(upper, s)
    decreases s
  {
    if s != [] {
      assert Lower(s)[1..] == Lower(s[1..]);
      CanonicalFromLower(s[0] == '-' as int, s[1..]);
    }
  }

  /** Folding the case of a name does not change its canonical form. */
  lemma CanonicalLower(s: Bytes)
    requires forall c <- s :: TokenByte(c)
    ensures Canonical(Lower(s)) == Canonical(s)
  {
    CanonicalFromLower(true, s);
    forall c <- Lower(s) ensures TokenByte(c) {
      var i :| 0 <= i < |Lower(s)| && Lower(s)[i] == c;
      assert TokenByte(s[i]);
    }
  }
}
