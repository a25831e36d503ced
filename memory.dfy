/** The freestanding memory routines of src/core/utils.cpp: memcpy, memset and memmove, on byte
    arrays. A null pointer is a null array reference. */
module Memory {
  import opened Bits

  /** The first i bytes of `dest` are those of `src`; the rest are as before the call. */
  twostate predicate Copied(dest: array<u8>, src: array<u8>, i: nat)
    reads dest, src
  {
    i <= dest.Length && i <= src.Length
    && (forall j :: 0 <= j < i ==> dest[j] == src[j])
    && forall j :: i <= j < dest.Length ==> dest[j] == old(dest[j])
  }

  /** utils.cpp:93-112. Copies n bytes; when both addresses are 4-byte aligned and n >= 4 the
      bytes go over four at a time first. `destAddr` and `srcAddr` are the numeric values of the
      two pointers: they decide only whether the word loop runs. */
  method Memcpy(dest: array?<u8>, destAddr: u64, src: array?<u8>, srcAddr: u64, n: nat)
    returns (r: array?<u8>)
    requires dest != null && src != null ==> n <= dest.Length && n <= src.Length && dest != src
    modifies dest
    ensures r == dest
    ensures dest == null || src == null || n == 0 ==> dest == null || dest[..] == old(dest[..])
    ensures dest != null && src != null ==>
      dest[..n] == src[..n] && dest[n..] == old(dest[n..])
  {
    if dest == null || src == null || n == 0 {
      return dest;
    }
    var i := 0;
    if n >= 4 && destAddr % 4 == 0 && srcAddr % 4 == 0 {
      while n - i >= 4
        invariant i <= n && Copied(dest, src, i)
        decreases n - i
      {
        // one `uint32_t` load and store: bytes i .. i+3
        dest[i], dest[i + 1], dest[i + 2], dest[i + 3] := src[i], src[i + 1], src[i + 2], src[i + 3];
        i := i + 4;
      }
    }
    while i < n
      invariant i <= n && Copied(dest, src, i)
    {
      dest[i] := src[i];
      i := i + 1;
    }
    assert dest[..n] == src[..n];
    return dest;
  }

  /** utils.cpp:114-121. Stores `(char)c`, the low byte of c, into the first n bytes. */
  method Memset(dest: array?<u8>, c: int, n: nat) returns (r: array?<u8>)
    requires dest != null ==> n <= dest.Length
    modifies dest
    ensures r == dest
    ensures dest != null ==>
      (forall k :: 0 <= k < n ==> dest[k] == c % 256) && dest[n..] == old(dest[n..])
  {
    if dest == null || n == 0 {
      return dest;
    }
    var i := 0;
    while i < n
      invariant i <= n && (forall k :: 0 <= k < i ==> dest[k] == c % 256) && dest[i..] == old(dest[i..])
    {
      dest[i] := c % 256;
      i := i + 1;
    }
    return dest;
  }

  /** utils.cpp:123-140, for two ranges of one buffer (the case where they may overlap): the n
      bytes at `src` end up at `dest` as they were before the call. The copy runs forwards
      unless `dest` lies inside (src, src + n), where it runs backwards. */
  method Memmove(buf: array<u8>, dest: nat, src: nat, n: nat)
    requires dest + n <= buf.Length && src + n <= buf.Length
    modifies buf
    ensures buf[dest..dest + n] == old(buf[src..src + n])
    ensures forall m :: 0 <= m < buf.Length && !(dest <= m < dest + n) ==> buf[m] == old(buf[m])
  {
    if n == 0 || dest == src {
      return;
    }
    if dest < src || dest >= src + n {
      CopyForward(buf, dest, src, n);
    } else {
      CopyBackward(buf, dest, src, n);
    }
  }

  /** `while (n--) *d++ = *s++;`, safe when `dest` does not lie inside (src, src + n). */
  method CopyForward(buf: array<u8>, dest: nat, src: nat, n: nat)
    requires dest + n <= buf.Length && src + n <= buf.Length && (dest <= src || dest >= src + n)
    modifies buf
    ensures buf[dest..dest + n] == old(buf[src..src + n])
    ensures forall m :: 0 <= m < buf.Length && !(dest <= m < dest + n) ==> buf[m] == old(buf[m])
  {
    ghost var before := buf[..];
    var k: nat := 0;
    while k < n
      invariant k <= n && buf[dest..dest + k] == before[src..src + k]
      invariant forall m :: 0 <= m < buf.Length && !(dest <= m < dest + k) ==> buf[m] == before[m]
    {
      assert buf[src + k] == before[src + k];
      buf[dest + k] := buf[src + k];
      assert buf[dest..dest + k + 1] == buf[dest..dest + k] + [buf[dest + k]];
      k := k + 1;
    }
  }

  /** Lines 133-136 of memmove: `*--d = *--s` from the ends, safe when `dest` lies above `src`. */
  method CopyBackward(buf: array<u8>, dest: nat, src: nat, n: nat)
    requires dest + n <= buf.Length && src + n <= buf.Length && src <= dest
    modifies buf
    ensures buf[dest..dest + n] == old(buf[src..src + n])
    ensures forall m :: 0 <= m < buf.Length && !(dest <= m < dest + n) ==> buf[m] == old(buf[m])
  {
    ghost var before := buf[..];
    var k: nat := n;
    while k > 0
      invariant k <= n && buf[dest + k..dest + n] == before[src + k..src + n]
      invariant forall m :: 0 <= m < buf.Length && !(dest + k <= m < dest + n) ==> buf[m] == before[m]
    {
      k := k - 1;
      assert buf[src + k] == before[src + k];
      buf[dest + k] := buf[src + k];
      assert buf[dest + k..dest + n] == [buf[dest + k]] + buf[dest + k + 1..dest + n];
    }
  }
}
