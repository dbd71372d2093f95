/** The print buffer: text that grows at its end, in a buffer of fixed size or one that is reallocated. */
module PrintBuffers {
  import opened CStrings

  const INT_MAX: nat := 2147483647

  class PrintBuffer {
    var buffer: array<char>
    var offset: nat
    var depth: nat
    var noalloc: bool
    var format: bool

    /** The field `length` of the source is the length of the array. */
    ghost predicate Valid()
      reads this`buffer, this`offset, buffer
    {
      buffer.Length <= INT_MAX && (offset < buffer.Length || offset == 0)
    }

    /** The text so far is t, and the next write goes behind it. */
    ghost predicate At(t: string)
      reads this`buffer, this`offset, buffer
    {
      Valid() && offset == |t| && (t == "" || |t| < buffer.Length) && forall i | 0 <= i < |t| :: buffer[i] == t[i]
    }

    /** The text so far is t with its NUL; the offset has yet to be moved to the end. */
    ghost predicate Ended(t: string)
      reads this`buffer, this`offset, buffer
    {
      && Valid() && offset <= |t| < buffer.Length
      && (forall i | 0 <= i < |t| :: buffer[i] == t[i]) && buffer[|t|] == NUL
      && forall i | offset <= i < |t| :: t[i] != NUL
    }

    /** How many bytes the buffer can have. */
    ghost function Limit(): nat
      reads this`noalloc, this`buffer
    {
      if noalloc then buffer.Length else INT_MAX
    }

    /** All but the text stays the same. */
    twostate predicate Kept()
      reads this`noalloc, this`format, this`buffer
    {
      noalloc == old(noalloc) && format == old(format) && (buffer == old(buffer) || (!noalloc && fresh(buffer)))
    }

    /** On a buffer of the caller, which is never reallocated. */
    constructor Preallocated(buffer: array<char>, format: bool)
      requires buffer.Length <= INT_MAX
      ensures At("") && noalloc && this.format == format && depth == 0 && this.buffer == buffer
    {
      this.buffer := buffer;
      offset, depth := 0, 0;
      noalloc, this.format := true, format;
    }

    constructor (size: nat, noalloc: bool, format: bool)
      requires size <= INT_MAX
      ensures At("") && this.noalloc == noalloc && this.format == format && depth == 0 && fresh(buffer)
      ensures buffer.Length == size
    {
      buffer := new char[size];
      offset, depth := 0, 0;
      this.noalloc, this.format := noalloc, format;
    }

    /** ensure: room for `needed` more bytes and one to spare, by reallocating if that is allowed. */
    method Ensure(needed: nat, ghost t: string) returns (ok: bool)
      requires At(t)
      modifies this`buffer
      ensures Kept() && Limit() == old(Limit())
      ensures ok <==> offset + needed + 1 <= Limit()
      ensures At(t) && (ok ==> offset + needed < buffer.Length)
      ensures !ok || offset + needed < old(buffer.Length) ==> buffer == old(buffer)
    {
      if buffer.Length > 0 && offset >= buffer.Length {
        return false;
      }
      if needed > INT_MAX {
        return false;
      }
      var total := needed + offset + 1;
      if total <= buffer.Length {
        return true;
      }
      if noalloc {
        return false;
      }
      var newsize;
      if total > INT_MAX / 2 {
        if total <= INT_MAX {
          newsize := INT_MAX;
        } else {
          return false;
        }
      } else {
        newsize := total * 2;
      }
      var newbuffer := new char[newsize];
      forall i | 0 <= i < offset {
        newbuffer[i] := buffer[i];
      }
      buffer := newbuffer;
      ok := true;
    }

    /** update_offset: moves the offset to the NUL. */
    method UpdateOffset(ghost t: string)
      requires Ended(t)
      modifies this`offset
      ensures At(t)
    {
      var length := offset;
      while buffer[length] != NUL
        invariant offset <= length <= |t|
        decreases |t| - length
      {
        length := length + 1;
      }
      offset := length;
    }

    /** Writes r behind the text, with or without a NUL. */
    method Write(r: string, terminate: bool, ghost t: string)
      requires At(t) && offset + |r| < buffer.Length && NulFree(r)
      modifies buffer
      ensures forall i | 0 <= i < |t| + |r| :: buffer[i] == (t + r)[i]
      ensures terminate ==> Ended(t + r)
    {
      CopyText(buffer, offset, r);
      if terminate {
        buffer[offset + |r|] := NUL;
      }
      forall i | 0 <= i < |t| + |r| ensures buffer[i] == (t + r)[i] {
        if i >= |t| { assert buffer[offset + (i - |t|)] == r[i - |t|]; }
      }
      assert forall i | 0 <= i < |r| :: r[i] in r;
    }

    /** Reserves `needed` bytes, writes r and moves the offset behind it. */
    method Append(r: string, needed: nat, terminate: bool, ghost t: string) returns (ok: bool)
      requires At(t) && |r| <= needed && NulFree(r)
      modifies this, buffer
      ensures Kept() && depth == old(depth) && Limit() == old(Limit())
      ensures ok <==> |t| + needed + 1 <= Limit()
      ensures ok ==> At(t + r) && (terminate ==> Ended(t + r))
    {
      ok := Ensure(needed, t);
      if ok {
        Write(r, terminate, t);
        offset := offset + |r|;
      }
    }

    /** Reserves `needed` bytes and writes r with its NUL, leaving the offset to be updated. */
    method Put(r: string, needed: nat, ghost t: string) returns (ok: bool)
      requires At(t) && |r| < needed && NulFree(r)
      modifies this, buffer
      ensures Kept() && depth == old(depth) && Limit() == old(Limit())
      ensures ok <==> |t| + needed + 1 <= Limit()
      ensures ok ==> Ended(t + r)
    {
      ok := Ensure(needed, t);
      if ok {
        Write(r, true, t);
      }
    }
  }

  method CopyText(b: array<char>, at: nat, r: string)
    requires at + |r| <= b.Length
    modifies b
    ensures forall i | 0 <= i < |r| :: b[at + i] == r[i]
    ensures forall i | 0 <= i < b.Length && !(at <= i < at + |r|) :: b[i] == old(b[i])
  {
    for k := 0 to |r|
      invariant forall i | 0 <= i < k :: b[at + i] == r[i]
      invariant forall i | 0 <= i < b.Length && !(at <= i < at + k) :: b[i] == old(b[i])
    {
      b[at + k] := r[k];
    }
  }
}
