/**
 The stored form of a wrapped data key (app/snapshots.py): a magic, a big-endian
 length, the wrapped key, the salt; and the older form that joins wrapped key and
 salt with a separator.
 */
module WrappedKey {
  import opened Common

  newtype Byte = x: int | 0 <= x < 256

  type Bytes = seq<Byte>

  /** The bytes of "v1". */
  const MAGIC: Bytes := [0x76, 0x31]

  /** The bytes of "||SALT||". */
  const SEPARATOR: Bytes := [0x7c, 0x7c, 0x53, 0x41, 0x4c, 0x54, 0x7c, 0x7c]

  const MAX_LENGTH := 0x1_0000_0000

  function Uint32(n: nat): (r: Bytes)
    requires n < MAX_LENGTH
    ensures |r| == 4
  {
    [(n / 0x100_0000) as Byte, (n / 0x1_0000 % 0x100) as Byte, (n / 0x100 % 0x100) as Byte, (n % 0x100) as Byte]
  }

  function FromBytes(s: Bytes): nat {
    if s == [] then 0 else FromBytes(s[..|s| - 1]) * 0x100 + s[|s| - 1] as int
  }

  /** A Python slice: bounds beyond the end are cut off. */
  function Slice(s: Bytes, from: nat): Bytes {
    if from <= |s| then s[from..] else []
  }

  function Take(s: Bytes, n: nat): Bytes {
    if n <= |s| then s[..n] else s
  }

  /** Longer wrapped keys do not fit the length field and are an error. */
  function Pack(wrapped: Bytes, salt: Bytes): Option<Bytes> {
    if |wrapped| < MAX_LENGTH then Some(MAGIC + Uint32(|wrapped|) + wrapped + salt) else None
  }

  function PackLegacy(wrapped: Bytes, salt: Bytes): Bytes {
    wrapped + SEPARATOR + salt
  }

  /** Splits at the first separator, or keeps everything on the left. */
  function Partition(s: Bytes): (r: (Bytes, Bytes))
    ensures (r.0 == s && r.1 == []) || |r.0| + |SEPARATOR| + |r.1| == |s|
  {
    if s == [] then ([], [])
    else if SEPARATOR <= s then ([], s[|SEPARATOR|..])
    else
      var rest := Partition(s[1..]);
      ([s[0]] + rest.0, rest.1)
  }

  function Unpack(blob: Bytes): (Bytes, Bytes) {
    if MAGIC <= blob then
      var body := Slice(blob, |MAGIC|);
      var n := FromBytes(Take(body, 4));
      (Take(Slice(body, 4), n), Slice(body, 4 + n))
    else
      Partition(blob)
  }

  // ------------------------------------------------------------ round trips

  lemma Uint32RoundTrip(n: nat)
    requires n < MAX_LENGTH
    ensures FromBytes(Uint32(n)) == n
    ensures
      var b := Uint32(n);
      n == b[0] as int * 0x100_0000 + b[1] as int * 0x1_0000 + b[2] as int * 0x100 + b[3] as int
  {
    var b := Uint32(n);
    Quotients(n);
    FromBytesSnoc(n / 0x100_0000, [], b[0]);
    FromBytesSnoc(n / 0x1_0000, [] + [b[0]], b[1]);
    FromBytesSnoc(n / 0x100, [] + [b[0]] + [b[1]], b[2]);
    FromBytesSnoc(n, [] + [b[0]] + [b[1]] + [b[2]], b[3]);
    assert b == [] + [b[0]] + [b[1]] + [b[2]] + [b[3]];
  }

  lemma Quotients(n: nat)
    ensures n / 0x1_0000 == n / 0x100 / 0x100 && n / 0x100_0000 == n / 0x1_0000 / 0x100
    ensures n < MAX_LENGTH ==> n / 0x100_0000 < 0x100
  {
  }

  /** One more byte of a number, most significant first. */
  lemma FromBytesSnoc(q: nat, s: Bytes, x: Byte)
    requires FromBytes(s) == q / 0x100 && x as int == q % 0x100
    ensures FromBytes(s + [x]) == q
  {
    assert (s + [x])[..|s|] == s;
  }

  /** Whatever the key and the salt contain, the length prefix gives both back. */
  lemma PackRoundTrip(wrapped: Bytes, salt: Bytes)
    requires |wrapped| < MAX_LENGTH
    ensures Pack(wrapped, salt).Some? && Unpack(Pack(wrapped, salt).value) == (wrapped, salt)
  {
    var blob := Pack(wrapped, salt).value;
    var body := blob[|MAGIC|..];
    Uint32RoundTrip(|wrapped|);
    assert blob[..|MAGIC|] == MAGIC;
    assert body == Uint32(|wrapped|) + wrapped + salt;
    assert body[..4] == Uint32(|wrapped|);
    assert body[4..] == wrapped + salt;
    assert body[4..][..|wrapped|] == wrapped;
    assert body[4 + |wrapped|..] == salt;
  }

  /** The separator starts in `s` at position `i`. */
  predicate SeparatorAt(s: Bytes, i: nat) {
    i <= |s| && SEPARATOR <= s[i..]
  }

  lemma SeparatorInTail(s: Bytes, j: nat)
    requires s != []
    ensures SeparatorAt(s[1..], j) <==> SeparatorAt(s, j + 1)
  {
    if j <= |s[1..]| {
      assert s[1..][j..] == s[j + 1..];
    }
  }

  lemma {:induction false} PartitionAtFirst(s: Bytes, i: nat)
    requires SeparatorAt(s, i) && forall j :: 0 <= j < i ==> !SeparatorAt(s, j)
    ensures Partition(s) == (s[..i], s[i + |SEPARATOR|..])
  {
    assert s[0..] == s;
    if i > 0 {
      assert !SeparatorAt(s, 0);
      SeparatorInTail(s, i - 1);
      forall j | 0 <= j < i - 1 ensures !SeparatorAt(s[1..], j) {
        SeparatorInTail(s, j);
      }
      PartitionAtFirst(s[1..], i - 1);
      PartitionShift(s, i);
    }
  }

  /** Without a separator everything stays on the left. */
  lemma {:induction false} PartitionWithout(s: Bytes)
    requires forall j :: 0 <= j <= |s| ==> !SeparatorAt(s, j)
    ensures Partition(s) == (s, [])
  {
    if s != [] {
      assert !SeparatorAt(s, 0) && s[0..] == s;
      forall j | 0 <= j <= |s[1..]| ensures !SeparatorAt(s[1..], j) {
        SeparatorInTail(s, j);
      }
      PartitionWithout(s[1..]);
      assert s == [s[0]] + s[1..];
    }
  }

  lemma PartitionShift(s: Bytes, i: nat)
    requires 0 < i && i + |SEPARATOR| <= |s|
    ensures [s[0]] + s[1..][..i - 1] == s[..i]
    ensures s[1..][i - 1 + |SEPARATOR|..] == s[i + |SEPARATOR|..]
  {
  }

  lemma {:induction false} FirstSeparator(s: Bytes, i: nat) returns (first: nat)
    requires SeparatorAt(s, i)
    ensures first <= i && SeparatorAt(s, first) && forall j :: 0 <= j < first ==> !SeparatorAt(s, j)
  {
    if j :| 0 <= j < i && SeparatorAt(s, j) {
      first := FirstSeparator(s, j);
    } else {
      first := i;
    }
  }

  /**
   The older form survives exactly when the blob does not begin with the magic
   and the separator does not start earlier, inside the wrapped key or across its
   end. Otherwise the two parts come back wrong.
   */
  lemma LegacyRoundTripsExactly(wrapped: Bytes, salt: Bytes)
    ensures
      var blob := PackLegacy(wrapped, salt);
      Unpack(blob) == (wrapped, salt) <==>
      !(MAGIC <= blob) && forall j :: 0 <= j < |wrapped| ==> !SeparatorAt(blob, j)
  {
    var blob := PackLegacy(wrapped, salt);
    assert blob[|wrapped|..] == SEPARATOR + salt;
    assert SeparatorAt(blob, |wrapped|);
    if MAGIC <= blob {
      var body := Slice(blob, |MAGIC|);
      var n := FromBytes(Take(body, 4));
      assert |Unpack(blob).0| + |Unpack(blob).1| == |blob| - 6;
    } else {
      var first := FirstSeparator(blob, |wrapped|);
      PartitionAtFirst(blob, first);
      assert blob[..|wrapped|] == wrapped && blob[|wrapped| + |SEPARATOR|..] == salt;
    }
  }

  /** Every wrapped key that begins like the magic is lost. */
  lemma LegacyLosesTheMagic(rest: Bytes, salt: Bytes)
    ensures Unpack(PackLegacy(MAGIC + rest, salt)) != (MAGIC + rest, salt)
  {
    assert PackLegacy(MAGIC + rest, salt)[..|MAGIC|] == MAGIC;
    LegacyRoundTripsExactly(MAGIC + rest, salt);
  }

  /** And so is every wrapped key that holds the separator. */
  lemma LegacyLosesTheSeparator(before: Bytes, after: Bytes, salt: Bytes)
    ensures
      var wrapped := before + SEPARATOR + after;
      Unpack(PackLegacy(wrapped, salt)) != (wrapped, salt)
  {
    var wrapped := before + SEPARATOR + after;
    var blob := PackLegacy(wrapped, salt);
    assert blob[|before|..] == SEPARATOR + (after + SEPARATOR + salt);
    assert SeparatorAt(blob, |before|);
    LegacyRoundTripsExactly(wrapped, salt);
  }
}
