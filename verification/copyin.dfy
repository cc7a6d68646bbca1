/** `copyin_new` and `copyinstr_new`: copying from a process's user memory
    into a kernel buffer, with bounds checks against the process size.

    User memory is the byte image `mem` of addresses `[0, sz)`, so the
    process size `sz` is `|mem|`.  Addresses and lengths are 64-bit
    unsigned; the one sum that can wrap is written out with `Add64`.
 */
module CopyIn {

  const U64: int := 0x1_0000_0000_0000_0000

  /** A 64-bit unsigned value. */
  type u64 = x: int | 0 <= x < U64

  /** A byte image of user memory that a 64-bit `sz` can describe. */
  type UserMem = m: seq<bv8> | |m| < U64

  /** Unsigned 64-bit addition, wrapping around. */
  function Add64(a: u64, b: u64): (r: u64)
    ensures r == a + b || r == a + b - U64
    ensures r < a <==> a + b >= U64
  {
    (a + b) % U64
  }

  /** The two statistics counters, `ncopyin` and `ncopyinstr`. */
  datatype Stats = Stats(ncopyin: int, ncopyinstr: int)

  /** A copy's return value (0 or -1), the kernel buffer after it, and the counters. */
  datatype Copy = Copy(ret: int, dst: seq<bv8>, stats: Stats)

  /** `copyin_new`: copy `len` bytes from user address `srcva` into `dst`.
      Refused when the source starts at or beyond `sz`, when it reaches
      `sz` or beyond, or when `srcva+len` wraps; a copy that would end
      exactly at `sz` is refused too. */
  function CopyInNew(mem: UserMem, dst: seq<bv8>, srcva: u64, len: u64, stats: Stats): (r: Copy)
    requires len <= |dst|
    ensures r.ret == 0 || r.ret == -1
    ensures r.ret == 0 <==> srcva + len < |mem|
    ensures |r.dst| == |dst|
    ensures r.ret == 0 ==> r.dst[..len] == mem[srcva..srcva + len] && r.dst[len..] == dst[len..]
    ensures r.ret == 0 ==> r.stats == stats.(ncopyin := stats.ncopyin + 1)
    ensures r.ret == -1 ==> r.dst == dst && r.stats == stats
  {
    var sz := |mem|;
    if srcva >= sz || Add64(srcva, len) >= sz || Add64(srcva, len) < srcva then
      Copy(-1, dst, stats)
    else
      Copy(0, mem[srcva..srcva + len] + dst[len..], stats.(ncopyin := stats.ncopyin + 1))
  }

  /** The bounds test `copyin_new` evidently intends, the one
      `copyinstr_new` applies byte by byte: every source byte lies below
      `sz`, so a copy may end exactly at `sz`. */
  function CopyInNewFixed(mem: UserMem, dst: seq<bv8>, srcva: u64, len: u64, stats: Stats): (r: Copy)
    requires len <= |dst|
    ensures r.ret == 0 || r.ret == -1
    ensures r.ret == 0 <==> srcva < |mem| && srcva + len <= |mem|
    ensures |r.dst| == |dst|
    ensures r.ret == 0 ==> r.dst[..len] == mem[srcva..srcva + len] && r.dst[len..] == dst[len..]
    ensures r.ret == 0 ==> r.stats == stats.(ncopyin := stats.ncopyin + 1)
    ensures r.ret == -1 ==> r.dst == dst && r.stats == stats
  {
    var sz := |mem|;
    if srcva >= sz || Add64(srcva, len) > sz || Add64(srcva, len) < srcva then
      Copy(-1, dst, stats)
    else
      Copy(0, mem[srcva..srcva + len] + dst[len..], stats.(ncopyin := stats.ncopyin + 1))
  }

  /** The two tests differ exactly on the copies that end at `sz`: the
      code as written refuses them, the intended test accepts them. */
  lemma CopyInEndingAtSize(mem: UserMem, dst: seq<bv8>, srcva: u64, len: u64, stats: Stats)
    requires len <= |dst|
    ensures CopyInNew(mem, dst, srcva, len, stats) != CopyInNewFixed(mem, dst, srcva, len, stats)
            <==> srcva < |mem| && srcva + len == |mem|
    ensures srcva < |mem| && srcva + len == |mem| ==>
              CopyInNew(mem, dst, srcva, len, stats).ret == -1
              && CopyInNewFixed(mem, dst, srcva, len, stats).ret == 0
  {
  }

  /** A 4-byte value in the last 4 bytes of a 4096-byte process is
      refused by `copyin_new`, though every byte is user memory. */
  lemma LastWordRefused(mem: UserMem, dst: seq<bv8>, stats: Stats)
    requires |mem| == 4096 && |dst| == 4
    ensures CopyInNew(mem, dst, 4092, 4, stats).ret == -1
    ensures CopyInNewFixed(mem, dst, 4092, 4, stats).ret == 0
    ensures CopyInNewFixed(mem, dst, 4092, 4, stats).dst == mem[4092..]
  {
    assert mem[4092..4096] == mem[4092..];
  }

  /** The user bytes from address `srcva` up to `sz`. */
  function From(mem: UserMem, srcva: u64): (src: seq<bv8>)
    ensures srcva < |mem| ==> src == mem[srcva..]
    ensures srcva >= |mem| ==> src == []
  {
    if srcva < |mem| then mem[srcva..] else []
  }

  /** How many bytes `copyinstr_new` may look at: at most `max`, and none
      at or past `sz`. */
  function Reach(mem: UserMem, srcva: u64, max: u64): (n: nat)
    ensures n <= max && n <= |From(mem, srcva)|
    ensures n == max || n == |From(mem, srcva)|
  {
    var avail := |From(mem, srcva)|;
    if max < avail then max else avail
  }

  /** Copying byte `i` of `src` extends the copied prefix by one. */
  lemma CopiedStep(out: seq<bv8>, src: seq<bv8>, dst: seq<bv8>, i: nat)
    requires |out| == |dst| && i < |out| && i < |src|
    requires out[..i] == src[..i] && out[i..] == dst[i..]
    ensures out[i := src[i]][..i + 1] == src[..i + 1] && out[i := src[i]][i + 1..] == dst[i + 1..]
  {
  }

  /** A prefix without NUL stays so when a non-NUL byte is added. */
  lemma NoNulStep(src: seq<bv8>, i: nat)
    requires i < |src| && 0 !in src[..i] && src[i] != 0
    ensures 0 !in src[..i + 1]
  {
    assert src[..i + 1] == src[..i] + [src[i]];
  }

  /** `copyinstr_new`: copy a NUL-terminated string of at most `max` bytes
      from user address `srcva`.  The counter `ncopyinstr` counts every
      call.  It succeeds exactly when a NUL lies within reach, and then
      the string up to and including its first NUL has been copied;
      otherwise every byte within reach has been copied and -1 returned. */
  method CopyInStrNew(mem: UserMem, dst: seq<bv8>, srcva: u64, max: u64, stats: Stats) returns (r: Copy)
    requires Reach(mem, srcva, max) <= |dst|
    ensures r.stats == stats.(ncopyinstr := stats.ncopyinstr + 1)
    ensures r.ret == 0 || r.ret == -1
    ensures |r.dst| == |dst|
    ensures r.ret == 0 <==> 0 in From(mem, srcva)[..Reach(mem, srcva, max)]
    ensures r.ret == 0 ==> exists i :: (0 <= i < Reach(mem, srcva, max) && From(mem, srcva)[i] == 0
                                        && 0 !in From(mem, srcva)[..i]
                                        && r.dst[..i + 1] == From(mem, srcva)[..i + 1]
                                        && r.dst[i + 1..] == dst[i + 1..])
    ensures r.ret == -1 ==> var n := Reach(mem, srcva, max);
      r.dst[..n] == From(mem, srcva)[..n] && r.dst[n..] == dst[n..]
  {
    var sz := |mem|;
    var st := stats.(ncopyinstr := stats.ncopyinstr + 1);
    var out := dst;
    var i: u64 := 0;
    ghost var src := From(mem, srcva);
    ghost var n := Reach(mem, srcva, max);
    while i < max && Add64(srcva, i) < sz
      invariant i <= n
      invariant srcva < sz ==> srcva + i <= sz
      invariant |out| == |dst|
      invariant out[..i] == src[..i] && out[i..] == dst[i..]
      invariant 0 !in src[..i]
      decreases max - i
    {
      var b := mem[srcva + i];
      assert src[i] == b;
      CopiedStep(out, src, dst, i);
      out := out[i := b];
      if b == 0 {
        assert src[..n][i] == 0;
        return Copy(0, out, st);
      }
      NoNulStep(src, i);
      i := i + 1;
    }
    assert i == n;
    assert src[..n] == src[..i];
    return Copy(-1, out, st);
  }
}
