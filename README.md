# svcexch: the Sentry exchange area, user side

The Sentry kernel and a userspace job exchange non-scalar data through one
fixed 128-byte buffer, the exchange area, which the linker places in its own
section and the job image zero-fills at load time. A job writes a syscall's
input into the area before the call and reads the result back after it. The
crate exposes this through the `ExhangeArea<T>` trait, implemented for two
types:

- raw bytes (`u8`), with vector copies `copy_vec_to` / `copy_vec_from`. These
  first run the overlap guard `check_overlapping`. A guard failure means the
  copy returns `Invalid` and touches nothing. Otherwise the copy moves
  `min(length, 128)` bytes between the caller buffer and the start of the
  area and returns `Ok`.
- the `ShmInfo` record, with single copies `copy_to` / `copy_from`. These
  move `min(size_of::<ShmInfo>(), 128)` bytes and always return `Ok`. They
  have no overlap check, on purpose: in real use only the kernel fills
  this record.

Every other combination (single-byte copies, vector copies of `ShmInfo`) uses
the trait's default and returns `Invalid`. `area_length` returns 128 for
every `T`.

`exchange.dfy` holds a single module, `SvcExchange`:

- the guard `CheckOverlapping` is a pure function on natural-number
  addresses;
- the static buffer and its link address are the object `Area`: `const base`
  and the `array<bv8>` `buf`;
- the trait's four copy methods are methods of `Area` with `modifies` frames.
  Each takes a tag `Exchanged = Byte | ShmInfo` that picks the `impl` (or the
  default) the source would dispatch to;
- caller memory is an array plus the address the caller claims for it. The
  only lie the model rules out is claiming another address for the buffer
  itself (`arr == buf ==> addr == base`). From this, the methods prove that an
  `Ok` byte copy never aliases the buffer;
- `core::ptr::copy_nonoverlapping` is `CopyNonoverlapping`, a parallel
  `forall` assignment specified by `Overlay`.

A buffer that only touches the area shares no byte with it. The guard still
compares with closed bounds on both sides (src/lib.rs:176, 184), so it
rejects a buffer that ends exactly at the area's start, or starts exactly at
its end. `BoundaryConvention` states this, and shows the guard accepts such a
buffer once it is one address further away.

## Model

| member | source | states |
|---|---|---|
| SvcExchange.CheckOverlapping | src/lib.rs:171-193 | Fails when the buffer starts in the closed range [area, area_end]. Fails when it ends in that range. Fails when it contains the whole area. Passes iff `pointer + length < area` or `pointer > area_end`. |
| SvcExchange.GuardIsIntersection | src/lib.rs:171-193 | The three cases together are one range-intersection test: the guard fails iff the closed ranges [pointer, pointer+length] and [area, area_end] share an address. |
| SvcExchange.GuardSeparatesCopiedBytes | src/lib.rs:167-169 | Once the guard passes, no byte of the caller buffer's full `length` is a byte of the area, so neither is any byte a clipped copy touches. This is the non-overlap `copy_nonoverlapping` needs. |
| SvcExchange.BoundaryConvention | src/lib.rs:175-186 | Both bounds are inclusive. A buffer starting exactly at area_end is rejected, and so is one ending exactly at area. One address further out, each is accepted. |
| SvcExchange.CopyLen | src/lib.rs:133 | The transfer length is at most both the request and 128, and equals one of them. A request of 128 or more is clipped, not refused. |
| SvcExchange.Overlay | src/lib.rs:130-134 | The destination after a copy of `n` bytes: same length, its first `n` bytes are the source's, the rest are its own. The same effect is used for the copy out at lines 145-149. |
| SvcExchange.CopyNonoverlapping | src/lib.rs:130-134 | On distinct arrays, the first `count` bytes of `dst` become those of `src`. The rest of `dst` is unchanged. |
| SvcExchange.RelayThroughArea | src/lib.rs:125-152 | Copying `n` bytes into the area and then `n` bytes out gives the same result as copying `src` straight into `dst`. |
| SvcExchange.RoundTrip | src/lib.rs:207-214 | If a buffer of at most 128 bytes is staged and read back into a buffer of the same length, the destination equals the source. |
| SvcExchange.LongCopyFillsArea | src/lib.rs:130-136 | A request of at least 128 bytes replaces the whole area with the first 128 bytes of the source. |
| SvcExchange.Area.constructor | src/lib.rs:8-9 | The exchange buffer is 128 bytes long, zero-filled, fresh, and placed at the given address. |
| SvcExchange.Area.AreaLength | src/lib.rs:78-83 | For every `T`, returns the buffer's actual size. It reads no mutable state, so no copy changes it. |
| SvcExchange.Area.CopyVecTo | src/lib.rs:125-137 | Bytes: `Ok` iff the guard passes. On `Ok`, the caller buffer is not the area, none of the caller bytes copied is an area byte, and the area's first `min(length,128)` bytes are the source's while the rest are unchanged. On `Invalid`, the area is unchanged. `ShmInfo`: the trait default (lines 57-59), `Invalid` with nothing changed. |
| SvcExchange.Area.CopyVecFrom | src/lib.rs:140-152 | Bytes: `Ok` iff the guard passes. On `Ok`, the destination is not the area, none of the caller bytes written is an area byte, and the destination's first `min(length,128)` bytes are the area's while the rest are unchanged. On `Invalid`, the destination is unchanged. The area is never changed. `ShmInfo`: the trait default (lines 63-65), `Invalid`. |
| SvcExchange.Area.CopyTo | src/lib.rs:105-115 | `ShmInfo`: always `Ok` with no overlap check. The area's first `min(size,128)` bytes become the record image. Bytes: the trait default (lines 68-70), `Invalid` with the area unchanged. |
| SvcExchange.Area.CopyFrom | src/lib.rs:93-103 | `ShmInfo`: always `Ok` with no overlap check. The record image becomes the area's first `min(size,128)` bytes, and the area is unchanged. Bytes: the trait default (lines 74-76), `Invalid` with nothing changed. |
| SvcExchange.CreateArea | src/lib.rs:200-204 | A handle on the existing area, whatever copies came before, reports a capacity of 128 for both types. |
| SvcExchange.BackToBackCopy | src/lib.rs:206-214 | For any source and destination of equal length of at most 128, both clear of the area: `copy_vec_to` then `copy_vec_from` both return `Ok`, and the destination equals the source. |
| SvcExchange.BackToBackShmCopy | src/lib.rs:216-236 | `copy_to` then `copy_from` of a `ShmInfo` image both return `Ok`. The copy equals the record byte for byte, and so field for field. |

## Left out

- `Area::new` (src/lib.rs:163-165) creates a handle with no state and no side effects. The model has no handle: the object `Area` stands for the one static buffer that every handle refers to.
- The `.svcexchange` link section and the `static mut` storage (src/lib.rs:8-9) are linker matters. The model keeps only a fixed base address.
- Address wraparound in `pointer.add(length)` and `area.add(128)`: addresses are unbounded naturals.
- Raw-pointer validity and provenance. A caller buffer is a whole array of its own plus a claimed address. A caller buffer that is a slice of the exchange area exists in the model only as its address, which the guard rejects.
- Validity for reads and writes is stated as a `requires`: the caller array holds at least the bytes the copy moves.
- The layout, padding and field meanings of `ShmInfo`. The record is an opaque byte image of the constant size `SHM_INFO_SIZE` (20, five 4-byte fields on the 32-bit target), so field-wise equality is byte-wise equality.
- The `ShmInfo` copies have no guard, so `CopyTo` / `CopyFrom` require the record not to be the buffer itself. This is `copy_nonoverlapping`'s own safety condition, which the source leaves to its callers.
- Concurrent access by the kernel side: this code does no synchronisation.
- The tests do not check the statuses the copies return. The client methods state them anyway.
