/** The Xen /dev/mem device: reads and writes of physical memory split
    into chunks that never cross a page, the strict-devmem page check,
    seeking, and the open-time capability check. The hypervisor mapping
    and the user-space copies are given as an environment and recorded,
    not carried out. */
module XenMem {
  import opened Kernel

  /** The error number an ERR_PTR value carries. */
  type Errno = e: nat | 0 < e < 4096 witness 1

  /** What ioremap of a chunk gives: a mapping, NULL, or an ERR_PTR value. */
  datatype Remap = Mapped | NullMap | ErrMap(errno: Errno)

  /** The machine a /dev/mem access runs against: whether strict devmem
      checking is built in and which page frames it allows, what mapping
      each physical address gives, and the bytes of physical memory. */
  datatype MemEnv = MemEnv(strict: bool, allowed: nat -> bool, remap: nat -> Remap, phys: nat -> u8)

  /** A copy into physical memory: where it started and the bytes copied. */
  datatype PhysWrite = PhysWrite(addr: nat, data: seq<u8>)

  /** Values of an unsigned long. */
  const ULONG_SPAN: nat := 0x1_0000_0000_0000_0000

  function Min(a: nat, b: nat): (m: nat)
    ensures m <= a && m <= b && (m == a || m == b)
  {
    if a <= b then a else b
  }

  /** The bytes of the chunk of a transfer at physical address p with
      count bytes left: up to the next page boundary, a whole page when p
      is on one, and never more than count. Dafny's remainder of -p is the
      source's mask of -p with PAGE_SIZE - 1. */
  function Chunk(p: nat, count: nat): (sz: nat)
    ensures count > 0 ==> 0 < sz
    ensures sz <= count
    ensures p % PAGE_SIZE + sz <= PAGE_SIZE
    ensures sz < count ==> (p + sz) % PAGE_SIZE == 0
  {
    var toBoundary := (-(p as int)) % PAGE_SIZE;
    Min(if toBoundary != 0 then toBoundary else PAGE_SIZE, count)
  }

  /** How many pages range_is_allowed steps over for size bytes. */
  function Pages(size: nat): (n: nat)
    ensures n * PAGE_SIZE >= size && (n > 0 ==> (n - 1) * PAGE_SIZE < size)
  {
    (size + PAGE_SIZE - 1) / PAGE_SIZE
  }

  /** range_is_allowed: without strict devmem every range is allowed;
      with it, each of the pages from pfn on that size bytes reach must
      be. */
  ghost predicate RangeAllowed(env: MemEnv, pfn: nat, size: nat)
  {
    !env.strict || forall q :: pfn <= q < pfn + Pages(size) ==> env.allowed(q)
  }

  /** Whole-count checks are stricter than chunk checks: a range that is
      allowed for the rest of a read is allowed for its first chunk. */
  lemma AllowedForChunk(env: MemEnv, p: nat, count: nat)
    requires RangeAllowed(env, p / PAGE_SIZE, count)
    ensures RangeAllowed(env, p / PAGE_SIZE, Chunk(p, count))
  {
    PagesMono(Chunk(p, count), count);
  }

  lemma PagesMono(a: nat, b: nat)
    requires a <= b
    ensures Pages(a) <= Pages(b)
  {
    var x, y := a + PAGE_SIZE - 1, b + PAGE_SIZE - 1;
    assert (x / PAGE_SIZE) * PAGE_SIZE <= x <= y < (y / PAGE_SIZE + 1) * PAGE_SIZE;
  }

  /** n bytes of physical memory from address p. */
  function PhysBytes(env: MemEnv, p: nat, n: nat): (bs: seq<u8>)
    ensures |bs| == n && forall k :: 0 <= k < n ==> bs[k] == env.phys(p + k)
  {
    seq<u8>(n, k requires 0 <= k < n => env.phys(p + k))
  }

  function Zeros(n: nat): (bs: seq<u8>)
    ensures |bs| == n && forall k :: 0 <= k < n ==> bs[k] == 0
  {
    seq(n, k => 0)
  }

  /** What read_mem returns having read `read` bytes, with count bytes
      left from p, into a user buffer of which len bytes are writable:
      the whole count, -EPERM when a page check fails, or -EFAULT when a
      copy or the zero fill faults. A chunk that cannot be mapped ends the
      read with the rest of the count zero filled. */
  ghost function ReadOutcome(env: MemEnv, p: nat, count: nat, read: nat, len: nat): int
    decreases count
  {
    if count == 0 then read
    else
      var sz := Chunk(p, count);
      if !RangeAllowed(env, p / PAGE_SIZE, count) then -EPERM
      else if env.remap(p) != Mapped then (if read + count > len then -EFAULT else read + count)
      else if read + sz > len then -EFAULT
      else ReadOutcome(env, p + sz, count - sz, read + sz, len)
  }

  /** The bytes a read of count bytes from p leaves in the user buffer:
      physical memory chunk by chunk, and zeros from the first chunk that
      cannot be mapped on. */
  function ReadImage(env: MemEnv, p: nat, count: nat): (bs: seq<u8>)
    ensures |bs| == count
    decreases count
  {
    if count == 0 then []
    else
      var sz := Chunk(p, count);
      if env.remap(p) != Mapped then Zeros(count)
      else PhysBytes(env, p, sz) + ReadImage(env, p + sz, count - sz)
  }

  /** How many bytes from p can be mapped before the first chunk that
      cannot. */
  function MappedPrefix(env: MemEnv, p: nat, count: nat): (n: nat)
    ensures n <= count
    decreases count
  {
    if count == 0 || env.remap(p) != Mapped then 0
    else Chunk(p, count) + MappedPrefix(env, p + Chunk(p, count), count - Chunk(p, count))
  }

  /** read_mem succeeds only with the whole count, and otherwise fails
      with -EPERM or -EFAULT. */
  lemma {:induction false} ReadAllOrError(env: MemEnv, p: nat, count: nat, read: nat, len: nat)
    requires read <= len
    ensures var r := ReadOutcome(env, p, count, read, len);
      (r >= 0 ==> r == read + count && read + count <= len) && (r < 0 ==> r == -EPERM || r == -EFAULT)
    decreases count
  {
    if count > 0 {
      var sz := Chunk(p, count);
      if RangeAllowed(env, p / PAGE_SIZE, count) && env.remap(p) == Mapped && read + sz <= len {
        ReadAllOrError(env, p + sz, count - sz, read + sz, len);
      }
    }
  }

  /** What a read gives is physical memory up to the first chunk that
      cannot be mapped, and zeros after it. */
  lemma {:induction false} ReadImageSplit(env: MemEnv, p: nat, count: nat)
    ensures var k := MappedPrefix(env, p, count);
      ReadImage(env, p, count) == PhysBytes(env, p, k) + Zeros(count - k)
    decreases count
  {
    if count > 0 && env.remap(p) == Mapped {
      var sz := Chunk(p, count);
      var k := MappedPrefix(env, p + sz, count - sz);
      ReadImageSplit(env, p + sz, count - sz);
      PhysBytesSplit(env, p, sz, k);
    }
  }

  /** Physical memory read in two consecutive pieces is read in one. */
  lemma PhysBytesSplit(env: MemEnv, p: nat, a: nat, b: nat)
    ensures PhysBytes(env, p, a) + PhysBytes(env, p + a, b) == PhysBytes(env, p, a + b)
  {
    var s, t := PhysBytes(env, p, a) + PhysBytes(env, p + a, b), PhysBytes(env, p, a + b);
    forall k | 0 <= k < a + b
      ensures s[k] == t[k]
    {
      if k >= a {
        assert s[k] == PhysBytes(env, p + a, b)[k - a];
      }
    }
  }

  /** The bytes copy_from_user copies of n at user offset d when only the
      first len bytes of the user buffer can be read. */
  function Copied(len: nat, d: nat, n: nat): (c: nat)
    ensures c <= n && (d + n <= len ==> c == n) && (c > 0 ==> d + c <= len)
  {
    if d >= len then 0 else Min(n, len - d)
  }

  /** What write_mem returns having written `written` bytes, with count
      bytes left from p, from a user buffer of which len bytes can be
      read: -EPERM when a chunk's page check fails; at a NULL mapping the
      bytes written so far; at an error mapping its error, unless bytes
      were written; at a copy that faults part way the bytes written
      including those it copied, or -EFAULT when there are none; else the
      whole count. */
  ghost function WriteOutcome(env: MemEnv, p: nat, count: nat, written: nat, len: nat): int
    decreases count
  {
    if count == 0 then written
    else
      var sz := Chunk(p, count);
      if !RangeAllowed(env, p / PAGE_SIZE, sz) then -EPERM
      else match env.remap(p)
        case NullMap => written
        case ErrMap(e) => if written == 0 then -(e as int) else written
        case Mapped =>
          var ignored := sz - Copied(len, written, sz);
          if ignored != 0 then (if written + sz - ignored != 0 then written + sz - ignored else -EFAULT)
          else WriteOutcome(env, p + sz, count - sz, written + sz, len)
  }

  /** Once bytes have been written, write_mem reports them (or fails a
      later page check); a fault or a mapping error is returned only when
      nothing was written. */
  lemma {:induction false} WriteErrorOnlyWhenNothingWritten(env: MemEnv, p: nat, count: nat, written: nat, len: nat)
    ensures var r := WriteOutcome(env, p, count, written, len);
      && (r >= 0 ==> written <= r <= written + count)
      && (written > 0 ==> r >= 0 || r == -EPERM)
      && (r < 0 && r != -EPERM ==> written == 0)
    decreases count
  {
    if count > 0 {
      var sz := Chunk(p, count);
      if RangeAllowed(env, p / PAGE_SIZE, sz) && env.remap(p) == Mapped && sz - Copied(len, written, sz) == 0 {
        WriteErrorOnlyWhenNothingWritten(env, p + sz, count - sz, written + sz, len);
      }
    }
  }

  /** The bytes a run of physical writes copied, in order. */
  function Written(ws: seq<PhysWrite>): (bs: seq<u8>)
  {
    if |ws| == 0 then [] else Written(ws[..|ws| - 1]) + ws[|ws| - 1].data
  }

  /** Each write of ws starts where the one before it ended, the first
      at addr. */
  ghost predicate Consecutive(ws: seq<PhysWrite>, addr: nat)
  {
    |ws| > 0 ==> Consecutive(ws[..|ws| - 1], addr) && ws[|ws| - 1].addr == addr + |Written(ws[..|ws| - 1])|
  }

  /** A chunk read in full leaves the outcome to the rest of the read. */
  lemma ReadOutcomeStep(env: MemEnv, p: nat, left: nat, read: nat, len: nat)
    requires left > 0 && RangeAllowed(env, p / PAGE_SIZE, left) && env.remap(p) == Mapped
    requires read + Chunk(p, left) <= len
    ensures ReadOutcome(env, p, left, read, len)
      == ReadOutcome(env, p + Chunk(p, left), left - Chunk(p, left), read + Chunk(p, left), len)
  {
  }

  /** A chunk written in full leaves the outcome to the rest of the write. */
  lemma WriteOutcomeStep(env: MemEnv, p: nat, left: nat, written: nat, len: nat)
    requires left > 0 && RangeAllowed(env, p / PAGE_SIZE, Chunk(p, left)) && env.remap(p) == Mapped
    requires Copied(len, written, Chunk(p, left)) == Chunk(p, left)
    ensures WriteOutcome(env, p, left, written, len)
      == WriteOutcome(env, p + Chunk(p, left), left - Chunk(p, left), written + Chunk(p, left), len)
  {
  }

  /** The state of read_mem after `read` bytes of a read of count from
      p0 into a buffer that held buf0: the outcome and the image of the
      whole read are those of the rest, and the buffer holds the image so
      far, img, followed by what was there before. */
  ghost predicate Reading(env: MemEnv, p0: nat, count: nat, buf0: seq<u8>,
                          p: nat, left: nat, read: nat, img: seq<u8>, buf: seq<u8>)
  {
    && p == p0 + read && read + left == count && |buf0| == |buf| && read <= |buf|
    && ReadOutcome(env, p, left, read, |buf|) == ReadOutcome(env, p0, count, 0, |buf|)
    && img + ReadImage(env, p, left) == ReadImage(env, p0, count)
    && |img| == read && buf == img + buf0[read..]
  }

  /** buf holds the first k bytes of image and, after them, what buf0
      held: a read that stopped part way. */
  ghost predicate FilledTo(image: seq<u8>, buf0: seq<u8>, buf: seq<u8>, k: nat)
  {
    k <= |image| && k <= |buf0| && buf == image[..k] + buf0[k..]
  }

  /** Copying in a mapped chunk that fits moves the read on by the chunk. */
  lemma ReadingChunk(env: MemEnv, p0: nat, count: nat, buf0: seq<u8>,
                     p: nat, left: nat, read: nat, img: seq<u8>, buf: seq<u8>)
    requires Reading(env, p0, count, buf0, p, left, read, img, buf)
    requires left > 0 && RangeAllowed(env, p / PAGE_SIZE, left) && env.remap(p) == Mapped
    requires read + Chunk(p, left) <= |buf|
    ensures var sz := Chunk(p, left);
      Reading(env, p0, count, buf0, p + sz, left - sz, read + sz, img + PhysBytes(env, p, sz),
              buf[..read] + PhysBytes(env, p, sz) + buf[read + sz..])
  {
    var sz := Chunk(p, left);
    assert buf[..read] == img;
    assert buf[read + sz..] == buf0[read + sz..];
    assert ReadImage(env, p, left) == PhysBytes(env, p, sz) + ReadImage(env, p + sz, left - sz);
    assert img + ReadImage(env, p, left) == (img + PhysBytes(env, p, sz)) + ReadImage(env, p + sz, left - sz);
  }

  /** Zero filling the rest of the read at a chunk that cannot be mapped
      ends it with the whole count and the read's image. */
  lemma ReadingZeroFill(env: MemEnv, p0: nat, count: nat, buf0: seq<u8>,
                        p: nat, left: nat, read: nat, img: seq<u8>, buf: seq<u8>)
    requires Reading(env, p0, count, buf0, p, left, read, img, buf)
    requires left > 0 && RangeAllowed(env, p / PAGE_SIZE, left) && env.remap(p) != Mapped
    requires read + left <= |buf|
    ensures ReadOutcome(env, p0, count, 0, |buf|) == count
    ensures buf[..read] + Zeros(left) + buf[read + left..] == ReadImage(env, p0, count) + buf0[count..]
  {
    assert buf[..read] == img;
    assert buf[read + left..] == buf0[read + left..];
    assert ReadImage(env, p, left) == Zeros(left);
  }

  /** A read that ran to the end of the count holds its image. */
  lemma ReadingDone(env: MemEnv, p0: nat, count: nat, buf0: seq<u8>,
                    p: nat, left: nat, read: nat, img: seq<u8>, buf: seq<u8>)
    requires Reading(env, p0, count, buf0, p, left, read, img, buf) && left == 0
    ensures ReadOutcome(env, p0, count, 0, |buf|) == count
    ensures buf == ReadImage(env, p0, count) + buf0[count..]
  {
    assert img + [] == img;
  }

  /** The state of write_mem after `written` bytes of a write of count
      to p0 from a user buffer buf: the copies so far are consecutive from
      p0 and hold the start of the buffer, and the outcome of the whole
      write is that of the rest. */
  ghost predicate Writing(env: MemEnv, p0: nat, count: nat, p: nat, left: nat, written: nat,
                          ws: seq<PhysWrite>, buf: seq<u8>)
  {
    && Consecutive(ws, p0) && written <= |buf| && Written(ws) == buf[..written]
    && p == p0 + written && written + left == count
    && WriteOutcome(env, p, left, written, |buf|) == WriteOutcome(env, p0, count, 0, |buf|)
  }

  /** A mapped chunk copied in full moves the write on by the chunk. */
  lemma WritingChunk(env: MemEnv, p0: nat, count: nat, p: nat, left: nat, written: nat,
                     ws0: seq<PhysWrite>, ws: seq<PhysWrite>, buf: seq<u8>)
    requires Writing(env, p0, count, p, left, written, ws0, buf)
    requires left > 0 && RangeAllowed(env, p / PAGE_SIZE, Chunk(p, left)) && env.remap(p) == Mapped
    requires written + Chunk(p, left) <= |buf|
    requires Consecutive(ws, p0) && Written(ws) == buf[..written + Chunk(p, left)]
    ensures var sz := Chunk(p, left);
      Writing(env, p0, count, p + sz, left - sz, written + sz, ws, buf)
  {
    WriteOutcomeStep(env, p, left, written, |buf|);
  }

  /** open_mem: opening /dev/mem needs CAP_SYS_RAWIO. */
  function OpenMem(capSysRawio: bool): (r: int)
    ensures r == 0 <==> capSysRawio
    ensures r != 0 ==> r == -EPERM
  {
    if capSysRawio then 0 else -EPERM
  }

  /** An open /dev/mem file: its position, and the copies into physical
      memory made through it. */
  class MemFile {
    var fPos: int
    var physWrites: seq<PhysWrite>

    constructor (pos: int)
      ensures fPos == pos && physWrites == []
    {
      fPos := pos;
      physWrites := [];
    }

    /** memory_lseek: whence 0 sets the position, 1 moves it by offset,
        both returning the new position; any other whence is -EINVAL and
        leaves the position alone. */
    method MemoryLseek(offset: int, orig: int) returns (ret: int)
      modifies this`fPos
      ensures orig == 0 ==> fPos == offset && ret == fPos
      ensures orig == 1 ==> fPos == old(fPos) + offset && ret == fPos
      ensures orig != 0 && orig != 1 ==> fPos == old(fPos) && ret == -EINVAL
    {
      if orig == 0 {
        fPos := offset;
        ret := fPos;
      } else if orig == 1 {
        fPos := fPos + offset;
        ret := fPos;
      } else {
        ret := -EINVAL;
      }
    }

    /** read_mem: the position, taken as an unsigned address, is read
        chunk by chunk into the user buffer; it succeeds only with the
        whole count, leaving physical memory up to the first chunk that
        cannot be mapped and zeros after it, and moves the position by
        the count; on -EPERM or -EFAULT the position does not move. */
    method ReadMem(ubuf: array<u8>, count: nat, env: MemEnv) returns (r: int)
      modifies ubuf, this`fPos
      ensures r == ReadOutcome(env, old(fPos) % ULONG_SPAN, count, 0, ubuf.Length)
      ensures r >= 0 ==> r == count <= ubuf.Length && fPos == old(fPos) + count
      ensures r >= 0 ==> ubuf[..] == ReadImage(env, old(fPos) % ULONG_SPAN, count) + old(ubuf[..])[count..]
      ensures r < 0 ==> fPos == old(fPos)
      ensures r < 0 ==> exists k :: FilledTo(ReadImage(env, old(fPos) % ULONG_SPAN, count), old(ubuf[..]), ubuf[..], k)
    {
      var p: nat := fPos % ULONG_SPAN;
      ghost var p0, buf0 := p, ubuf[..];
      ghost var img: seq<u8> := [];
      var left: nat, read: nat := count, 0;
      ghost var zeroFilled := false;
      while left > 0
        invariant Reading(env, p0, count, buf0, p, left, read, img, ubuf[..])
        invariant fPos == old(fPos)
      {
        var sz := Chunk(p, left);
        var ok := RangeIsAllowed(p / PAGE_SIZE, left, env);
        if !ok {
          assert FilledTo(ReadImage(env, p0, count), buf0, ubuf[..], read);
          return -EPERM;
        }
        if env.remap(p) != Mapped {
          var uncleared := ZeroFillRest(ubuf, env, p, left, read, p0, count, buf0, img);
          if uncleared != 0 {
            return -EFAULT;
          }
          read, zeroFilled := read + left, true;
          break;
        }
        var ignored := CopyChunk(ubuf, env, p, left, read, sz, p0, count, buf0, img);
        if ignored != 0 {
          return -EFAULT;
        }
        img, p, left, read := img + PhysBytes(env, p, sz), p + sz, left - sz, read + sz;
      }
      if !zeroFilled {
        ReadingDone(env, p0, count, buf0, p, left, read, img, ubuf[..]);
      }
      fPos := fPos + read;
      r := read;
    }

    /** The zero fill of read_mem at a chunk that cannot be mapped:
        clears the rest of the count in the user buffer, which ends the
        read with its image, or faults. */
    static method ZeroFillRest(ubuf: array<u8>, env: MemEnv, p: nat, left: nat, read: nat,
                               ghost p0: nat, ghost count: nat, ghost buf0: seq<u8>, ghost img: seq<u8>)
      returns (uncleared: nat)
      requires Reading(env, p0, count, buf0, p, left, read, img, ubuf[..])
      requires left > 0 && RangeAllowed(env, p / PAGE_SIZE, left) && env.remap(p) != Mapped
      modifies ubuf
      ensures uncleared != 0 ==> ReadOutcome(env, p0, count, 0, ubuf.Length) == -EFAULT
      ensures uncleared != 0 ==> FilledTo(ReadImage(env, p0, count), buf0, ubuf[..], ubuf.Length)
      ensures uncleared == 0 ==> ReadOutcome(env, p0, count, 0, ubuf.Length) == count
      ensures uncleared == 0 ==> ubuf[..] == ReadImage(env, p0, count) + buf0[count..]
    {
      ghost var before := ubuf[..];
      uncleared := ClearUser(ubuf, read, left);
      if uncleared == 0 {
        ReadingZeroFill(env, p0, count, buf0, p, left, read, img, before);
      }
    }

    /** One mapped chunk of read_mem: copies sz bytes of physical memory
        at p into the user buffer, which moves the read on by the chunk,
        or faults. */
    static method CopyChunk(ubuf: array<u8>, env: MemEnv, p: nat, left: nat, read: nat, sz: nat,
                            ghost p0: nat, ghost count: nat, ghost buf0: seq<u8>, ghost img: seq<u8>)
      returns (ignored: nat)
      requires Reading(env, p0, count, buf0, p, left, read, img, ubuf[..])
      requires left > 0 && RangeAllowed(env, p / PAGE_SIZE, left) && env.remap(p) == Mapped
      requires sz == Chunk(p, left)
      modifies ubuf
      ensures ignored != 0 ==> ReadOutcome(env, p0, count, 0, ubuf.Length) == -EFAULT
      ensures ignored != 0 ==> FilledTo(ReadImage(env, p0, count), buf0, ubuf[..], ubuf.Length)
      ensures ignored == 0 ==> Reading(env, p0, count, buf0, p + sz, left - sz, read + sz,
                                       img + PhysBytes(env, p, sz), ubuf[..])
    {
      ghost var before := ubuf[..];
      ignored := CopyToUser(ubuf, read, PhysBytes(env, p, sz));
      if ignored == 0 {
        ReadingChunk(env, p0, count, buf0, p, left, read, img, before);
      }
    }

    /** copy_to_user into buf at d: copies what fits in the buffer and
        returns how many bytes it could not copy. */
    static method CopyToUser(buf: array<u8>, d: nat, src: seq<u8>) returns (ignored: nat)
      requires d <= buf.Length
      modifies buf
      ensures ignored == |src| - Copied(buf.Length, d, |src|)
      ensures buf[..] == old(buf[..])[..d] + src[..|src| - ignored] + old(buf[..])[d + |src| - ignored..]
      ensures ignored == 0 ==> buf[..] == old(buf[..])[..d] + src + old(buf[..])[d + |src|..]
    {
      var n := Copied(buf.Length, d, |src|);
      forall k | 0 <= k < n {
        buf[d + k] := src[k];
      }
      ignored := |src| - n;
      assert ignored == 0 ==> src[..|src| - ignored] == src;
    }

    /** clear_user of n bytes of buf from d: zeroes what fits and returns
        how many bytes it could not. */
    static method ClearUser(buf: array<u8>, d: nat, n: nat) returns (uncleared: nat)
      requires d <= buf.Length
      modifies buf
      ensures uncleared == n - Copied(buf.Length, d, n)
      ensures buf[..] == old(buf[..])[..d] + Zeros(n - uncleared) + old(buf[..])[d + n - uncleared..]
      ensures uncleared == 0 ==> buf[..] == old(buf[..])[..d] + Zeros(n) + old(buf[..])[d + n..]
    {
      var c := Copied(buf.Length, d, n);
      forall k | 0 <= k < c {
        buf[d + k] := 0;
      }
      uncleared := n - c;
    }

    /** range_is_allowed: steps a cursor page by page over size bytes
        from page frame pfn, stopping at the first page strict devmem
        does not allow. */
    static method RangeIsAllowed(pfn: nat, size: nat, env: MemEnv) returns (ok: bool)
      ensures ok == RangeAllowed(env, pfn, size)
    {
      ok := true;
      if env.strict {
        var from := pfn * PAGE_SIZE;
        var toAddr := from + size;
        var cursor := from;
        var pf := pfn;
        while cursor < toAddr && ok
          invariant pf >= pfn && cursor == from + (pf - pfn) * PAGE_SIZE
          invariant ok ==> pf - pfn <= Pages(size) && forall q :: pfn <= q < pf ==> env.allowed(q)
          invariant !ok ==> pf - pfn < Pages(size) && !env.allowed(pf)
          decreases toAddr - cursor, (if ok then 1 else 0)
        {
          if !env.allowed(pf) {
            ok := false;
          } else {
            cursor := cursor + PAGE_SIZE;
            pf := pf + 1;
          }
        }
      }
    }

    /** write_mem: the position, taken as an unsigned address, is written
        chunk by chunk from the user buffer; the result is WriteOutcome,
        the position moves by it when it is not an error, and what reached
        physical memory is the start of the user buffer, at consecutive
        addresses from the position: all of the result on success, none
        of it on a fault or a mapping error (a failed page check may follow
        chunks already written). */
    method WriteMem(ubuf: array<u8>, count: nat, env: MemEnv) returns (r: int)
      modifies this`fPos, this`physWrites
      ensures r == WriteOutcome(env, old(fPos) % ULONG_SPAN, count, 0, ubuf.Length)
      ensures r >= 0 ==> fPos == old(fPos) + r
      ensures r < 0 ==> fPos == old(fPos)
      ensures |old(physWrites)| <= |physWrites| && Consecutive(physWrites[|old(physWrites)|..], old(fPos) % ULONG_SPAN)
      ensures Written(physWrites[|old(physWrites)|..]) <= ubuf[..]
      ensures r >= 0 ==> |Written(physWrites[|old(physWrites)|..])| == r
      ensures r < 0 && r != -EPERM ==> Written(physWrites[|old(physWrites)|..]) == []
      ensures physWrites[..|old(physWrites)|] == old(physWrites)
    {
      var p: nat := fPos % ULONG_SPAN;
      ghost var p0, n0 := p, |physWrites|;
      var left: nat, written: nat := count, 0;
      while left > 0
        invariant n0 <= |physWrites| && Writing(env, p0, count, p, left, written, physWrites[n0..], ubuf[..])
        invariant physWrites[..n0] == old(physWrites)
        invariant fPos == old(fPos)
      {
        var sz := Chunk(p, left);
        var ok := RangeIsAllowed(p / PAGE_SIZE, sz, env);
        if !ok {
          return -EPERM;
        }
        if env.remap(p) == NullMap {
          assert WriteOutcome(env, p0, count, 0, ubuf.Length) == written;
          break;
        }
        if env.remap(p).ErrMap? {
          if written == 0 {
            return -(env.remap(p).errno as int);
          }
          assert WriteOutcome(env, p0, count, 0, ubuf.Length) == written;
          break;
        }
        var ignored;
        ignored, p, left, written := WriteChunk(ubuf, env, p, left, written, sz, n0, p0, count);
        if ignored != 0 {
          if written == 0 {
            return -EFAULT;
          }
          break;
        }
      }
      fPos := fPos + written;
      r := written;
    }

    /** One mapped chunk of write_mem: copies sz bytes from the user
        buffer to physical address p, which moves the write on by the
        chunk, or ends it with what the copy reached. */
    method WriteChunk(ubuf: array<u8>, env: MemEnv, p: nat, left: nat, written: nat, sz: nat,
                      ghost n0: nat, ghost p0: nat, ghost count: nat)
      returns (ignored: nat, p': nat, left': nat, written': nat)
      requires n0 <= |physWrites| && Writing(env, p0, count, p, left, written, physWrites[n0..], ubuf[..])
      requires left > 0 && RangeAllowed(env, p / PAGE_SIZE, sz) && env.remap(p) == Mapped
      requires sz == Chunk(p, left)
      modifies this`physWrites
      ensures n0 <= |physWrites| && |old(physWrites)| <= |physWrites| && physWrites[..|old(physWrites)|] == old(physWrites)
      ensures written' == written + sz - ignored && ignored <= sz
      ensures ignored == 0 ==> p' == p + sz && left' == left - sz
      ensures ignored == 0 ==> Writing(env, p0, count, p', left', written', physWrites[n0..], ubuf[..])
      ensures ignored != 0 ==> written' <= ubuf.Length && Consecutive(physWrites[n0..], p0)
      ensures ignored != 0 ==> Written(physWrites[n0..]) == ubuf[..written']
      ensures ignored != 0 ==>
        WriteOutcome(env, p0, count, 0, ubuf.Length) == if written' != 0 then written' else -EFAULT
    {
      ghost var ws0 := physWrites[n0..];
      ignored := CopyFromUser(ubuf, written, sz, p, n0, p0);
      p', left', written' := p + sz, left - sz, written + sz - ignored;
      if ignored == 0 {
        WritingChunk(env, p0, count, p, left, written, ws0, physWrites[n0..], ubuf[..]);
      }
    }

    /** copy_from_user of n bytes at user offset d into the mapping of
        physical address p: copies what can be read of the user buffer,
        records the copy, and returns how many bytes it could not copy. */
    method CopyFromUser(ubuf: array<u8>, d: nat, n: nat, p: nat, ghost n0: nat, ghost p0: nat)
      returns (ignored: nat)
      requires n0 <= |physWrites| && Consecutive(physWrites[n0..], p0) && p == p0 + d
      requires d <= ubuf.Length && Written(physWrites[n0..]) == ubuf[..d]
      modifies this`physWrites
      ensures ignored == n - Copied(ubuf.Length, d, n)
      ensures |old(physWrites)| <= |physWrites| && physWrites[..|old(physWrites)|] == old(physWrites)
      ensures n0 <= |physWrites| && Consecutive(physWrites[n0..], p0)
      ensures Written(physWrites[n0..]) == ubuf[..d + n - ignored]
    {
      var c := Copied(ubuf.Length, d, n);
      ghost var before := physWrites[n0..];
      physWrites := physWrites + [PhysWrite(p, ubuf[d..d + c])];
      assert physWrites[n0..] == before + [PhysWrite(p, ubuf[d..d + c])];
      assert physWrites[n0..][..|physWrites[n0..]| - 1] == before;
      ignored := n - c;
    }
  }
}
