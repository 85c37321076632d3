/** Identifiers (utils.go): `UID`, the 12-character client id the server assigns on accept,
    and `BID12`, the 12-byte message id. The clock reading `ns` and the random draw `rd`
    they are built from are parameters. */
module Ids {
  import opened Base
  import Codec

  /** A message id: the `[12]byte` that `BID12` returns and `writeMsg` takes. */
  type Id12 = s: seq<byte> | |s| == Codec.IdLen witness seq(12, _ => 0)

  /** `alph`: the 64 characters a UID is spelled with, as bytes: the lower-case letters,
      the capitals, the digits, `-` and `_`. */
  const Alph: seq<byte> := Run(97, 26) + Run(65, 26) + Run(48, 10) + [45, 95]

  /** `n` consecutive byte values from `start`. */
  function Run(start: nat, n: nat): (r: seq<byte>)
    requires start + n <= 256
    ensures |r| == n && forall i :: 0 <= i < n ==> r[i] as int == start + i
  {
    seq(n, i requires 0 <= i < n => (start + i) as byte)
  }

  /** The table is the one written out character by character in the source. */
  lemma AlphSpelling()
    ensures Alph == Str("abcdefghijklmnopqrstuvwxyz") + Str("ABCDEFGHIJKLMNOPQRSTUVWXYZ")
                    + Str("0123456789") + Str("-_")
  {
    LowerSpelling();
    UpperSpelling();
    DigitSpelling();
  }

  lemma LowerSpelling()
    ensures Run(97, 26) == Str("abcdefghijklmnopqrstuvwxyz")
  {
  }

  lemma UpperSpelling()
    ensures Run(65, 26) == Str("ABCDEFGHIJKLMNOPQRSTUVWXYZ")
  {
  }

  lemma DigitSpelling()
    ensures Run(48, 10) == Str("0123456789")
  {
  }

  /** The position of a character in `alph`, or 64 for a character that is not in it. */
  function AlphIndex(c: byte): (d: nat)
    ensures d <= 64
  {
    if 97 <= c <= 122 then c as nat - 97
    else if 65 <= c <= 90 then c as nat - 65 + 26
    else if 48 <= c <= 57 then c as nat - 48 + 52
    else if c == 45 then 62
    else if c == 95 then 63
    else 64
  }

  /** Every character of `alph` sits at its own position: the table has no repeats, so a
      UID character names a single 6-bit digit. */
  lemma AlphIndexInverts()
    ensures |Alph| == 64
    ensures forall d :: 0 <= d < 64 ==> AlphIndex(Alph[d]) == d
  {
    forall d | 0 <= d < 64
      ensures AlphIndex(Alph[d]) == d
    {
      AlphIndexAt(d);
    }
  }

  lemma AlphIndexAt(d: nat)
    requires d < 64
    ensures |Alph| == 64 && AlphIndex(Alph[d]) == d
  {
  }

  function Pow64(k: nat): (p: nat)
    ensures p >= 1
  {
    if k == 0 then 1 else 64 * Pow64(k - 1)
  }

  /** `count` characters of `alph` spelling `n` six bits at a time, lowest bits first: what
      a `WriteRune(alph[n&63]); n >>= 6` loop produces. */
  function Spell(n: nat, count: nat): (s: seq<byte>)
    ensures |s| == count
  {
    if count == 0 then [] else [Char(n)] + Spell(n / 64, count - 1)
  }

  /** The character for the low six bits of `n`. */
  function Char(n: nat): byte {
    AlphIndexInverts();
    Alph[n % 64]
  }

  /** The id `UID` builds from `ns` and `rd`: seven characters of `rd`, then five of `ns`. */
  function Uid(ns: uint64, rd: uint64): (uid: seq<byte>)
    ensures |uid| == 12
  {
    Spell(rd, 7) + Spell(ns, 5)
  }

  /** UID (utils.go): two shift loops appending to a buffer. */
  method UID(ns: uint64, rd: uint64) returns (uid: seq<byte>)
    ensures uid == Uid(ns, rd)
  {
    var low := AppendSpelling([], rd, 7);
    uid := AppendSpelling(low, ns, 5);
  }

  /** One of `UID`'s shift loops: `count` times, append the character for the low six bits
      of `n` and shift them out. */
  method AppendSpelling(output: seq<byte>, n: nat, count: nat) returns (s: seq<byte>)
    ensures s == output + Spell(n, count)
  {
    s := output;
    var r := n;
    for i := 0 to count
      invariant s + Spell(r, count - i) == output + Spell(n, count)
    {
      var c := Char(r);
      SpellStep(s, r, count - i - 1);
      s := s + [c];
      r := r / 64;
    }
    SpellEmpty(s, r);
  }

  lemma SpellEmpty(output: seq<byte>, n: nat)
    ensures output + Spell(n, 0) == output
  {
  }

  /** Writing one character moves it from the part still to spell to the output. */
  lemma SpellStep(output: seq<byte>, n: nat, count: nat)
    ensures output + Spell(n, count + 1) == (output + [Char(n)]) + Spell(n / 64, count)
  {
  }

  /** Character `k` of a spelling is `alph[(n >> 6k) & 63]`. */
  lemma {:induction false} SpellAt(n: nat, count: nat, k: nat)
    requires k < count
    ensures Spell(n, count)[k] == Alph[(n / Pow64(k)) % 64]
  {
    if k > 0 {
      SpellAt(n / 64, count - 1, k - 1);
      DivDiv(n, 64, Pow64(k - 1));
    }
  }

  lemma DivDiv(n: nat, a: nat, b: nat)
    requires a > 0 && b > 0
    ensures n / a / b == n / (a * b)
  {
    var q, r := n / a, n % a;
    var q2, r2 := q / b, q % b;
    assert r2 * a <= (b - 1) * a by { MulMono(b - 1, r2, a); }
    assert n == q2 * (a * b) + (r2 * a + r);
    DivUnique(n, a * b, q2, r2 * a + r);
  }

  lemma DivUnique(n: int, d: int, q: int, r: int)
    requires d > 0 && 0 <= r < d && n == q * d + r
    ensures n / d == q
  {
    var q0 := n / d;
    assert (q0 - q) * d == r - n % d;
    MulMono(q0 - q, 1, d);
    MulMono(q - q0, 1, d);
  }

  lemma MulMono(x: int, y: int, d: int)
    requires d > 0
    ensures x >= y ==> x * d >= y * d
  {
  }

  /** Reading a UID back: the number a run of `alph` characters spells, lowest digit first. */
  function Unspell(s: seq<byte>): nat {
    if s == [] then 0 else AlphIndex(s[0]) % 64 + 64 * Unspell(s[1..])
  }

  /** A spelling keeps exactly the low `6 * count` bits: the first seven UID characters
      recover `rd mod 2^42`, the last five `ns mod 2^30`. */
  lemma {:induction false} UnspellSpell(n: nat, count: nat)
    ensures Unspell(Spell(n, count)) == n % Pow64(count)
  {
    if count > 0 {
      UnspellSpell(n / 64, count - 1);
      UnspellStep(n, count - 1);
      ModSplit(n, Pow64(count - 1));
    }
  }

  /** Reading back one more character adds its digit below what the rest spells. */
  lemma UnspellStep(n: nat, count: nat)
    ensures Unspell(Spell(n, count + 1)) == n % 64 + 64 * Unspell(Spell(n / 64, count))
  {
    var s := Spell(n, count + 1);
    assert s[0] == Char(n) && s[1..] == Spell(n / 64, count);
    CharIndex(n);
  }

  /** The character for the low six bits of `n` reads back as those bits. */
  lemma CharIndex(n: nat)
    ensures AlphIndex(Char(n)) == n % 64
  {
    AlphIndexAt(n % 64);
  }

  lemma ModSplit(n: nat, p: nat)
    requires p > 0
    ensures n % (64 * p) == n % 64 + 64 * ((n / 64) % p)
  {
    var q := n / 64;
    var q2, r2 := q / p, q % p;
    assert n == q2 * (64 * p) + (64 * r2 + n % 64);
    DivUnique(n, 64 * p, q2, 64 * r2 + n % 64);
  }

  /** What the UID carries: every character is from `alph`, and the two parts read back as
      the low 42 bits of the random draw and the low 30 bits of the clock. */
  lemma UidRoundTrip(ns: uint64, rd: uint64)
    ensures var uid := Uid(ns, rd);
      && (forall k :: 0 <= k < 12 ==> AlphIndex(uid[k]) < 64)
      && Unspell(uid[..7]) == rd % Pow64(7)
      && Unspell(uid[7..]) == ns % Pow64(5)
  {
    var uid := Uid(ns, rd);
    AlphIndexInverts();
    forall k | 0 <= k < 12
      ensures AlphIndex(uid[k]) < 64
    {
      if k < 7 {
        SpellAt(rd, 7, k);
      } else {
        SpellAt(ns, 5, k - 7);
      }
    }
    assert uid[..7] == Spell(rd, 7);
    assert uid[7..] == Spell(ns, 5);
    UnspellSpell(rd, 7);
    UnspellSpell(ns, 5);
  }

  /** The id `BID12` builds: the low 32 bits of the clock big-endian in bytes 0-3, the
      random draw big-endian in bytes 4-11. */
  function Bid(ns: uint64, rd: uint64): (id: Id12) {
    BigEndian(ns % 0x1_0000_0000, 4) + BigEndian(rd, 8)
  }

  /** Byte `k` of `n`, counting from the least significant: `(n & (0xff << 8k)) >> 8k`. */
  function ByteOf(n: nat, k: nat): byte {
    ((n / Pow256(k)) % 256) as byte
  }

  /** BID12 (utils.go): twelve masked shifts into a `[12]byte`. */
  method BID12(ns: uint64, rd: uint64) returns (id: Id12)
    ensures id == Bid(ns, rd)
  {
    var out := new byte[12];
    var t := ns % 0x1_0000_0000;
    out[0], out[1], out[2], out[3] := ByteOf(t, 3), ByteOf(t, 2), ByteOf(t, 1), ByteOf(t, 0);
    out[4], out[5], out[6], out[7] := ByteOf(rd, 7), ByteOf(rd, 6), ByteOf(rd, 5), ByteOf(rd, 4);
    out[8], out[9], out[10], out[11] := ByteOf(rd, 3), ByteOf(rd, 2), ByteOf(rd, 1), ByteOf(rd, 0);
    BidBytes(ns, rd);
    id := out[..];
  }

  /** The twelve bytes of `Bid`, most significant first within each field. */
  lemma BidBytes(ns: uint64, rd: uint64)
    ensures var t := ns % 0x1_0000_0000;
      Bid(ns, rd) == [ByteOf(t, 3), ByteOf(t, 2), ByteOf(t, 1), ByteOf(t, 0),
                      ByteOf(rd, 7), ByteOf(rd, 6), ByteOf(rd, 5), ByteOf(rd, 4),
                      ByteOf(rd, 3), ByteOf(rd, 2), ByteOf(rd, 1), ByteOf(rd, 0)]
  {
    BigEndianBytes(ns % 0x1_0000_0000, 4);
    BigEndianBytes(rd, 8);
  }

  /** Byte `i` of a big-endian encoding is byte `width - 1 - i` of the number. */
  lemma {:induction false} BigEndianBytes(n: nat, width: nat)
    ensures forall i :: 0 <= i < width ==> BigEndian(n, width)[i] == ByteOf(n, width - 1 - i)
  {
    if width > 0 {
      BigEndianBytes(n / 256, width - 1);
      forall i | 0 <= i < width - 1
        ensures BigEndian(n, width)[i] == ByteOf(n, width - 1 - i)
      {
        Div256(n, width - 2 - i);
      }
    }
  }

  lemma Div256(n: nat, k: nat)
    ensures n / 256 / Pow256(k) == n / Pow256(k + 1)
  {
    DivDiv(n, 256, Pow256(k));
  }

  /** What the message id carries: both fields read back, the clock modulo 2^32. */
  lemma BidRoundTrip(ns: uint64, rd: uint64)
    ensures var id := Bid(ns, rd);
      FromBigEndian(id[..4]) == ns % 0x1_0000_0000 && FromBigEndian(id[4..]) == rd
  {
    var id := Bid(ns, rd);
    assert id[..4] == BigEndian(ns % 0x1_0000_0000, 4);
    assert id[4..] == BigEndian(rd, 8);
    assert Pow256(4) == 0x1_0000_0000;
    assert Pow256(8) == Uint64Limit;
    BigEndianRoundTrip(ns % 0x1_0000_0000, 4);
    BigEndianRoundTrip(rd, 8);
  }
}
