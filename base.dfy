/** Bytes, Go byte slices and the big-endian integer encoding the wire format uses. */
module Base {

  /** A Go `byte`. */
  newtype byte = b: int | 0 <= b < 256

  /** Go's `uint64`. */
  const Uint64Limit: nat := 0x1_0000_0000_0000_0000
  type uint64 = n: nat | n < Uint64Limit

  datatype Option<+T> = None | Some(value: T)

  /** A Go `[]byte`: either nil or a (possibly empty) run of bytes. Go tells the two apart
      (`BinEq`, the HAS_BODY flag of `Send`), so the model does too. */
  datatype Slice = Nil | Bytes(data: seq<byte>) {
    /** The bytes held; `len(nil) == 0` in Go. */
    function Contents(): (s: seq<byte>)
      ensures Nil? ==> s == []
      ensures Bytes? ==> s == data
    {
      if Nil? then [] else data
    }
  }

  /** The bytes of an ASCII string, as Go's `[]byte("...")` lays them out. */
  function Str(s: string): (r: seq<byte>)
    ensures |r| == |s|
    ensures forall i :: 0 <= i < |s| ==> r[i] as int == s[i] as int % 256
  {
    seq(|s|, i requires 0 <= i < |s| => (s[i] as int % 256) as byte)
  }

  function Pow256(k: nat): (p: nat)
    ensures p >= 1
  {
    if k == 0 then 1 else 256 * Pow256(k - 1)
  }

  /** `n` written in `width` bytes, most significant first, as `binary.BigEndian` writes it. */
  function BigEndian(n: nat, width: nat): (r: seq<byte>)
    ensures |r| == width
  {
    if width == 0 then [] else BigEndian(n / 256, width - 1) + [(n % 256) as byte]
  }

  /** The unsigned integer whose big-endian bytes are `s`, as `binary.BigEndian.Uint64` reads it. */
  function FromBigEndian(s: seq<byte>): (n: nat)
    ensures n < Pow256(|s|)
  {
    if s == [] then 0 else FromBigEndian(s[..|s| - 1]) * 256 + s[|s| - 1] as nat
  }

  /** Reading back what BigEndian wrote gives the number, whenever it fits the width. */
  lemma {:induction false} BigEndianRoundTrip(n: nat, width: nat)
    requires n < Pow256(width)
    ensures FromBigEndian(BigEndian(n, width)) == n
  {
    if width > 0 {
      var s, q := BigEndian(n, width), n / 256;
      assert n == q * 256 + n % 256;
      assert q < Pow256(width - 1);
      assert s[..width - 1] == BigEndian(q, width - 1);
      BigEndianRoundTrip(q, width - 1);
    }
  }

  /** The position of the first element satisfying `p`, or the length if there is none: the
      `for i, x := range s { if p(x) { break } }` scan whose index stays at the first hit. */
  function FirstIndex<T>(s: seq<T>, p: T -> bool): (k: nat)
    ensures k <= |s|
    ensures k < |s| ==> p(s[k])
    ensures forall j :: 0 <= j < k ==> !p(s[j])
  {
    if s == [] then 0
    else if p(s[0]) then 0
    else 1 + FirstIndex(s[1..], p)
  }

  /** BinEq (utils.go): two slices are equal when both are nil, or neither is and they hold
      the same bytes. */
  method BinEq(a: Slice, b: Slice) returns (eq: bool)
    ensures eq <==> (a.Nil? && b.Nil?) || (a.Bytes? && b.Bytes? && |a.data| == |b.data|
                                          && forall i :: 0 <= i < |a.data| ==> a.data[i] == b.data[i])
    ensures eq <==> a == b
  {
    if a.Nil? != b.Nil? {
      return false;
    }
    var x, y := a.Contents(), b.Contents();
    if |x| != |y| {
      return false;
    }
    var i := 0;
    while i < |x|
      invariant 0 <= i <= |x|
      invariant forall j :: 0 <= j < i ==> x[j] == y[j]
    {
      if x[i] != y[i] {
        return false;
      }
      i := i + 1;
    }
    assert x == y;
    return true;
  }
}
