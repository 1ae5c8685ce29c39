/**
 * User-side access layer to the Sentry kernel/user exchange area: one fixed
 * 128-byte buffer, the overlap guard protecting it, and the copy operations
 * of the `ExhangeArea<T>` trait for the two types it is implemented at
 * (raw bytes and the `ShmInfo` record).
 *
 * Addresses are unbounded naturals (no wraparound). Caller memory is an
 * array together with the address the caller claims it lives at.
 */
module SvcExchange {

  type byte = bv8

  /** Capacity of the exchange area, in bytes. */
  const EXCHANGE_AREA_LEN: nat := 128

  /**
   * `size_of::<ShmInfo>()`: five 4-byte fields on the 32-bit target.
   * The record itself is handled as an opaque byte image of this size.
   */
  const SHM_INFO_SIZE: nat := 20

  /** Status returned by every copy operation. */
  datatype Status = Ok | Invalid

  /** `Result<(), ()>` returned by the overlap guard. */
  datatype Outcome = Pass | Fail

  /** The types `T` the exchange-area trait is implemented at. */
  datatype Exchanged = Byte | ShmInfo

  /** Address one past the last byte of an area starting at `area`. */
  function AreaEnd(area: nat): (e: nat)
  {
    area + EXCHANGE_AREA_LEN
  }

  /** The closed address range [lo, hi] contains `a`. */
  predicate InRange(a: nat, lo: nat, hi: nat)
  {
    lo <= a <= hi
  }

  /** The `count` bytes starting at address `start` include the byte at `a`. */
  predicate InBytes(a: nat, start: nat, count: nat)
  {
    start <= a < start + count
  }

  // ---------------------------------------------------------------------
  // Overlap guard
  // ---------------------------------------------------------------------

  /**
   * `Area::check_overlapping`: may a caller buffer of `length` bytes at
   * `pointer` be copied to or from the exchange area placed at `area`?
   * Each of the three rejection cases is stated separately; together they
   * accept exactly the buffers lying wholly below or wholly above the area,
   * both bounds being inclusive.
   */
  function CheckOverlapping(area: nat, pointer: nat, length: nat): (r: Outcome)
    // the buffer starts inside the area or on one of its bounds
    ensures InRange(pointer, area, AreaEnd(area)) ==> r == Fail
    // the buffer ends inside the area or on one of its bounds
    ensures InRange(pointer + length, area, AreaEnd(area)) ==> r == Fail
    // the buffer contains the whole area
    ensures pointer <= area && AreaEnd(area) <= pointer + length ==> r == Fail
    ensures r == Pass <==> pointer + length < area || AreaEnd(area) < pointer
  {
    var areaEnd := AreaEnd(area);
    if area <= pointer && pointer <= areaEnd then
      Fail
    else
      var bufferEnd := pointer + length;
      if area <= bufferEnd && bufferEnd <= areaEnd then
        Fail
      else if pointer <= area && bufferEnd >= areaEnd then
        Fail
      else
        Pass
  }

  /**
   * The three-case test is a plain range-intersection test: the guard fails
   * exactly when the closed ranges [pointer, pointer + length] and
   * [area, area end] share an address.
   */
  lemma GuardIsIntersection(area: nat, pointer: nat, length: nat)
    ensures CheckOverlapping(area, pointer, length) == Fail <==>
            exists a :: InRange(a, pointer, pointer + length) && InRange(a, area, AreaEnd(area))
  {
    if CheckOverlapping(area, pointer, length) == Fail {
      var a := if pointer <= area then area else pointer;
      assert InRange(a, pointer, pointer + length) && InRange(a, area, AreaEnd(area));
    }
  }

  /**
   * What the guard buys the copies: once it passes, no byte of the caller
   * buffer, and so none a clipped copy touches, is a byte of the area.
   */
  lemma GuardSeparatesCopiedBytes(area: nat, pointer: nat, length: nat)
    requires CheckOverlapping(area, pointer, length) == Pass
    ensures forall a :: InBytes(a, pointer, length) ==> !InBytes(a, area, EXCHANGE_AREA_LEN)
  {
  }

  /**
   * Boundary convention: a buffer starting exactly at the area's end, or
   * ending exactly at its start, is rejected though the bytes it covers are
   * disjoint from the area; one address further away it is accepted.
   */
  lemma BoundaryConvention(area: nat, length: nat)
    ensures CheckOverlapping(area, AreaEnd(area), length) == Fail
    ensures CheckOverlapping(area, AreaEnd(area) + 1, length) == Pass
    ensures length <= area ==> CheckOverlapping(area, area - length, length) == Fail
    ensures length < area ==> CheckOverlapping(area, area - length - 1, length) == Pass
  {
  }

  // ---------------------------------------------------------------------
  // Byte transfers
  // ---------------------------------------------------------------------

  /** `length.min(EXCHANGE_AREA_LEN)`: a transfer is clipped to the area's capacity. */
  function CopyLen(length: nat): (n: nat)
    ensures n <= length && n <= EXCHANGE_AREA_LEN
    ensures n == length || n == EXCHANGE_AREA_LEN
  {
    if length < EXCHANGE_AREA_LEN then length else EXCHANGE_AREA_LEN
  }

  /** The contents of `dst` once its first `n` bytes are overwritten with those of `src`. */
  function Overlay(dst: seq<byte>, src: seq<byte>, n: nat): (r: seq<byte>)
    requires n <= |dst| && n <= |src|
    ensures |r| == |dst|
    ensures forall i :: 0 <= i < n ==> r[i] == src[i]
    ensures forall i :: n <= i < |dst| ==> r[i] == dst[i]
  {
    src[..n] + dst[n..]
  }

  /** The area is a transparent relay: copying in and then out equals copying directly. */
  lemma RelayThroughArea(area: seq<byte>, src: seq<byte>, dst: seq<byte>, n: nat)
    requires n <= |area| && n <= |src| && n <= |dst|
    ensures Overlay(dst, Overlay(area, src, n), n) == Overlay(dst, src, n)
  {
  }

  /**
   * Round trip of a buffer that fits: staging `src` in the area and reading
   * it back into a buffer of the same length reproduces `src` exactly.
   */
  lemma RoundTrip(area: seq<byte>, src: seq<byte>, dst: seq<byte>)
    requires |area| == EXCHANGE_AREA_LEN
    requires |dst| == |src| <= EXCHANGE_AREA_LEN
    ensures Overlay(dst, Overlay(area, src, CopyLen(|src|)), CopyLen(|src|)) == src
  {
  }

  /** Clipping: a request of at least the capacity fills the whole area with the first bytes of `src`. */
  lemma LongCopyFillsArea(area: seq<byte>, src: seq<byte>, length: nat)
    requires |area| == EXCHANGE_AREA_LEN
    requires EXCHANGE_AREA_LEN <= length && EXCHANGE_AREA_LEN <= |src|
    ensures Overlay(area, src, CopyLen(length)) == src[..EXCHANGE_AREA_LEN]
  {
  }

  /** `core::ptr::copy_nonoverlapping(src, dst, count)` on byte arrays. */
  method CopyNonoverlapping(src: array<byte>, dst: array<byte>, count: nat)
    requires src != dst
    requires count <= src.Length && count <= dst.Length
    modifies dst
    ensures dst[..] == Overlay(old(dst[..]), src[..], count)
  {
    forall i | 0 <= i < count {
      dst[i] := src[i];
    }
  }

  // ---------------------------------------------------------------------
  // The exchange area
  // ---------------------------------------------------------------------

  /**
   * The one static exchange buffer of the job together with the address the
   * linker placed it at. Every handle refers to it, so the trait methods are
   * its methods.
   */
  class Area {
    /** Address of the buffer's first byte. */
    const base: nat
    /** The buffer itself. */
    const buf: array<byte>

    ghost predicate Valid()
    {
      buf.Length == EXCHANGE_AREA_LEN
    }

    /** The buffer as the job image provides it: zero-filled, at address `base`. */
    constructor (base: nat)
      ensures Valid() && this.base == base && fresh(buf)
      ensures forall i :: 0 <= i < buf.Length ==> buf[i] == 0
    {
      this.base := base;
      buf := new byte[EXCHANGE_AREA_LEN](_ => 0);
    }

    /**
     * `area_length`, the same for every `T`: the size of the buffer. It
     * reads no mutable state, so no copy can change it.
     */
    function AreaLength(t: Exchanged): (n: nat)
      requires Valid()
      ensures n == buf.Length
    {
      EXCHANGE_AREA_LEN
    }

    /**
     * `copy_vec_to`: stage `length` elements from `from`, which the caller
     * claims lives at address `pointer`. Implemented for bytes, guarded by
     * the overlap check; the trait default for `ShmInfo` refuses.
     */
    method CopyVecTo(t: Exchanged, from: array<byte>, pointer: nat, length: nat) returns (st: Status)
      requires Valid()
      requires from == buf ==> pointer == base
      requires t == Byte ==> CopyLen(length) <= from.Length
      modifies buf
      ensures t == Byte ==> (st == Ok <==> CheckOverlapping(base, pointer, length) == Pass)
      ensures t == ShmInfo ==> st == Invalid
      ensures st == Ok ==> from != buf && buf[..] == Overlay(old(buf[..]), from[..], CopyLen(length))
      ensures st == Ok ==> forall a :: InBytes(a, pointer, CopyLen(length)) ==> !InBytes(a, base, EXCHANGE_AREA_LEN)
      ensures st == Invalid ==> buf[..] == old(buf[..])
    {
      match t
      case ShmInfo =>
        st := Invalid;
      case Byte =>
        if CheckOverlapping(base, pointer, length) == Fail {
          return Invalid;
        }
        CopyNonoverlapping(from, buf, CopyLen(length));
        st := Ok;
    }

    /**
     * `copy_vec_from`: read `length` elements back into `to`, which the
     * caller claims lives at address `pointer`. Implemented for bytes,
     * guarded by the overlap check; the trait default for `ShmInfo` refuses.
     */
    method CopyVecFrom(t: Exchanged, to: array<byte>, pointer: nat, length: nat) returns (st: Status)
      requires Valid()
      requires to == buf ==> pointer == base
      requires t == Byte ==> CopyLen(length) <= to.Length
      modifies to
      ensures t == Byte ==> (st == Ok <==> CheckOverlapping(base, pointer, length) == Pass)
      ensures t == ShmInfo ==> st == Invalid
      ensures st == Ok ==> to != buf && to[..] == Overlay(old(to[..]), buf[..], CopyLen(length))
      ensures st == Ok ==> forall a :: InBytes(a, pointer, CopyLen(length)) ==> !InBytes(a, base, EXCHANGE_AREA_LEN)
      ensures st == Invalid ==> to[..] == old(to[..])
      ensures buf[..] == old(buf[..])
    {
      match t
      case ShmInfo =>
        st := Invalid;
      case Byte =>
        if CheckOverlapping(base, pointer, length) == Fail {
          return Invalid;
        }
        CopyNonoverlapping(buf, to, CopyLen(length));
        st := Ok;
    }

    /**
     * `copy_to`: stage one record. Implemented for `ShmInfo` without an
     * overlap check, so the record must not be the buffer itself; the trait
     * default for a single byte refuses.
     */
    method CopyTo(t: Exchanged, from: array<byte>) returns (st: Status)
      requires Valid()
      requires t == ShmInfo ==> from.Length == SHM_INFO_SIZE && from != buf
      modifies buf
      ensures st == Ok <==> t == ShmInfo
      ensures st == Ok ==> buf[..] == Overlay(old(buf[..]), from[..], CopyLen(SHM_INFO_SIZE))
      ensures st == Invalid ==> buf[..] == old(buf[..])
    {
      match t
      case Byte =>
        st := Invalid;
      case ShmInfo =>
        CopyNonoverlapping(from, buf, CopyLen(SHM_INFO_SIZE));
        st := Ok;
    }

    /**
     * `copy_from`: read one record back into `to`. Implemented for
     * `ShmInfo` without an overlap check, so the record must not be the
     * buffer itself; the trait default for a single byte refuses.
     */
    method CopyFrom(t: Exchanged, to: array<byte>) returns (st: Status)
      requires Valid()
      requires t == ShmInfo ==> to.Length == SHM_INFO_SIZE && to != buf
      modifies to
      ensures st == Ok <==> t == ShmInfo
      ensures st == Ok ==> to[..] == Overlay(old(to[..]), buf[..], CopyLen(SHM_INFO_SIZE))
      ensures st == Invalid ==> to[..] == old(to[..])
      ensures buf[..] == old(buf[..])
    {
      match t
      case Byte =>
        st := Invalid;
      case ShmInfo =>
        CopyNonoverlapping(buf, to, CopyLen(SHM_INFO_SIZE));
        st := Ok;
    }
  }

  // ---------------------------------------------------------------------
  // Clients: the scenarios the crate's tests exercise
  // ---------------------------------------------------------------------

  /**
   * A handle on the existing area reports a capacity of 128 bytes, for
   * either type, whatever copies came before.
   */
  method CreateArea(area: Area) returns (byteLen: nat, shmLen: nat)
    requires area.Valid()
    ensures byteLen == 128 && shmLen == 128
  {
    byteLen := area.AreaLength(Byte);
    shmLen := area.AreaLength(ShmInfo);
  }

  /**
   * Byte round trip: `copy_vec_to` of `src` then `copy_vec_from` into `dst`,
   * both of the same length at most the capacity and both clear of the area,
   * succeed and leave `dst` equal to `src`.
   */
  method BackToBackCopy(area: Area, src: array<byte>, srcAddr: nat, dst: array<byte>, dstAddr: nat)
    returns (toSt: Status, fromSt: Status)
    requires area.Valid()
    requires src.Length == dst.Length <= EXCHANGE_AREA_LEN
    requires src == area.buf ==> srcAddr == area.base
    requires dst == area.buf ==> dstAddr == area.base
    requires CheckOverlapping(area.base, srcAddr, src.Length) == Pass
    requires CheckOverlapping(area.base, dstAddr, dst.Length) == Pass
    modifies area.buf, dst
    ensures toSt == Ok && fromSt == Ok
    ensures dst[..] == old(src[..])
    ensures area.AreaLength(Byte) == 128
  {
    ghost var staged := area.buf[..];
    ghost var target := dst[..];
    ghost var s := src[..];
    toSt := area.CopyVecTo(Byte, src, srcAddr, src.Length);
    assert src[..] == s;
    fromSt := area.CopyVecFrom(Byte, dst, dstAddr, src.Length);
    RoundTrip(staged, s, target);
  }

  /**
   * Record round trip: `copy_to` then `copy_from` of a `ShmInfo` image
   * succeed and reproduce the record in `copy`, byte for byte and so field
   * for field.
   */
  method BackToBackShmCopy(area: Area, record: array<byte>, copy: array<byte>)
    returns (toSt: Status, fromSt: Status)
    requires area.Valid()
    requires record.Length == copy.Length == SHM_INFO_SIZE
    requires record != area.buf && copy != area.buf
    modifies area.buf, copy
    ensures toSt == Ok && fromSt == Ok
    ensures copy[..] == old(record[..])
  {
    ghost var staged := area.buf[..];
    ghost var target := copy[..];
    ghost var r := record[..];
    toSt := area.CopyTo(ShmInfo, record);
    assert record[..] == r;
    fromSt := area.CopyFrom(ShmInfo, copy);
    RoundTrip(staged, r, target);
  }
}
