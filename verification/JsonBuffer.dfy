/** The growable buffer of cJSON.c: `printbuffer`, `ensure` and `update`. */
module JsonBuffer {
  import opened Common
  import opened JsonSize
  import opened JsonText

  /** The largest size `pow2gt` can give. */
  const MAX: nat := 0x4000_0000

  /** `printbuffer`; its length is that of the allocated buffer. */
  class PrintBuffer {
    var buffer: array<char>
    var offset: nat

    ghost predicate Valid()
      reads this, buffer
    {
      offset <= buffer.Length <= MAX
    }

    /** The text up to the offset. */
    ghost function Done(): string
      reads this, buffer
      requires Valid()
    {
      buffer[..offset]
    }

    /** The string `s` and its NUL stand at the offset. */
    ghost predicate Ahead(s: string)
      reads this, buffer
    {
      Valid() && offset + |s| < buffer.Length && buffer[offset..offset + |s|] == s && buffer[offset + |s|] == '\0'
    }

    /** The buffer `cJSON_PrintBuffered` starts with. */
    constructor (prebuffer: nat)
      requires 0 < prebuffer <= MAX
      ensures Valid() && fresh(buffer) && Done() == []
    {
      buffer := new char[prebuffer](_ => '\0');
      offset := 0;
    }

    /** `ensure`: room for `needed` characters at the offset, with everything before kept; a buffer
        that is too short grows to the least power of two that will do. */
    method Ensure(needed: nat)
      requires Valid() && 0 < offset + needed <= MAX
      modifies this`buffer
      ensures Valid() && offset == old(offset) && Done() == old(Done()) && offset + needed <= buffer.Length
      ensures if offset + needed <= old(buffer.Length) then buffer == old(buffer)
              else fresh(buffer) && buffer.Length == PowerFrom(1, offset + needed)
    {
      if offset + needed <= buffer.Length {
        return;
      }
      LeastPowerMax(offset + needed);
      GrownIs(offset + needed);
      var newsize := Grown(offset + needed);
      var newbuffer := new char[newsize](_ => '\0');
      Memcpy(newbuffer, 0, buffer[..]);
      assert newbuffer[..buffer.Length] == buffer[..];
      assert newbuffer[..offset] == buffer[..offset];
      buffer := newbuffer;
    }

    /** Characters written at the offset, which moves past them. */
    method Emit(piece: string, needed: nat)
      requires Valid() && |piece| <= needed && 0 < offset + needed <= MAX
      modifies this, buffer
      ensures Valid() && Done() == old(Done()) + piece && offset == old(offset) + |piece|
      ensures buffer == old(buffer) || fresh(buffer)
    {
      Ensure(needed);
      Memcpy(buffer, offset, piece);
      offset := offset + |piece|;
    }

    /** A string with its NUL written at the offset, which stays. */
    method PutString(s: string, needed: nat)
      requires Valid() && |s| < needed && offset + needed <= MAX
      modifies this`buffer, buffer
      ensures Ahead(s) && Done() == old(Done()) && offset == old(offset)
      ensures buffer == old(buffer) || fresh(buffer)
    {
      Ensure(needed);
      ghost var done := Done();
      Memcpy(buffer, offset, s + ['\0']);
      var n := offset + |s|;
      assert buffer[..n + 1] == done + (s + ['\0']);
      assert buffer[..offset] == buffer[..n + 1][..offset] == done;
      assert buffer[offset..n] == buffer[..n + 1][offset..n] == s;
      assert buffer[n] == buffer[..n + 1][n];
    }

    /** `update`: the offset of the NUL at the end of the string at the offset. */
    method Update(ghost s: string) returns (end: nat)
      requires Ahead(s) && Bytes(s)
      ensures end == offset + |s| && buffer[..end] == Done() + s && end < buffer.Length
    {
      end := offset;
      while buffer[end] != '\0'
        invariant offset <= end <= offset + |s|
        decreases offset + |s| - end
      {
        end := end + 1;
      }
      StopsAtNul(s, end);
      assert buffer[..end] == buffer[..offset] + buffer[offset..end];
    }

    lemma StopsAtNul(s: string, end: nat)
      requires Ahead(s) && Bytes(s) && offset <= end <= offset + |s| && buffer[end] == '\0'
      ensures end == offset + |s|
    {
      assert forall i :: offset <= i < offset + |s| ==> buffer[i] == buffer[offset..offset + |s|][i - offset];
    }

    /** `p->offset = update(p)` after a value is printed. */
    method Advance(ghost s: string)
      requires Ahead(s) && Bytes(s)
      modifies this`offset
      ensures Valid() && Done() == old(Done()) + s
      ensures offset == old(offset) + |s|
    {
      offset := Update(s);
    }
  }

  /** Powers of two do not pass the largest size. */
  lemma LeastPowerMax(n: nat)
    requires 0 < n <= MAX
    ensures PowerFrom(1, n) <= MAX
  {
    MaxIsPower();
    if MAX < PowerFrom(1, n) {
      PowersApart(MAX, PowerFrom(1, n));
    }
  }

  lemma TimesTwo(n: nat)
    requires PowerOfTwo(n)
    ensures PowerOfTwo(2 * n)
  {
    assert 2 * n / 2 == n;
  }

  lemma Times32(n: nat)
    requires PowerOfTwo(n)
    ensures PowerOfTwo(32 * n)
  {
    hide PowerOfTwo;
    TimesTwo(n);
    TimesTwo(2 * n);
    TimesTwo(4 * n);
    TimesTwo(8 * n);
    TimesTwo(16 * n);
  }

  lemma MaxIsPower()
    ensures PowerOfTwo(MAX)
  {
    assert PowerOfTwo(1);
    hide PowerOfTwo;
    Times32(1);
    Times32(0x20);
    Times32(0x400);
    Times32(0x8000);
    Times32(0x10_0000);
    Times32(0x200_0000);
  }
}
