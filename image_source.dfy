/** The image file as the write and verify passes read it: a byte stream over the file's
    content with a cursor, read in buffer-sized chunks. */
module ImageSource {
  import opened Common

  class FileSource {
    /** The bytes of the image file. */
    const data: seq<bv8>
    /** How many bytes have been read or skipped. */
    var pos: nat
    var closed: bool

    ghost predicate Valid()
      reads this
    {
      pos <= |data|
    }

    /** A freshly opened stream over `data`. */
    constructor (data: seq<bv8>)
      ensures Valid() && this.data == data && pos == 0 && !closed
    {
      this.data := data;
      pos := 0;
      closed := false;
    }

    /** skip(n): moves past up to n bytes, as many as are left; nothing for n <= 0. */
    method Skip(n: int) returns (skipped: nat)
      requires Valid()
      modifies this`pos
      ensures Valid() && pos == old(pos) + skipped
      ensures n <= 0 ==> skipped == 0
      ensures n > 0 ==> skipped == Min(n, |data| - old(pos))
    {
      skipped := if n <= 0 then 0 else Min(n, |data| - pos);
      pos := pos + skipped;
    }

    /** read(buf): copies the next bytes, as many as buf holds or are left, into the front
        of buf and returns how many; -1 once the file is exhausted. */
    method Read(buf: array<bv8>) returns (r: int)
      requires Valid()
      modifies this`pos, buf
      ensures Valid() && pos == old(pos) + Max(r, 0)
      ensures r >= -1 && (r == -1 <==> 0 < buf.Length && old(pos) == |data|)
      ensures r >= 0 ==> r == Min(buf.Length, |data| - old(pos))
      ensures r >= 0 ==> buf[..] == Splice(old(buf[..]), 0, data[old(pos)..pos])
      ensures r == -1 ==> buf[..] == old(buf[..])
    {
      if buf.Length == 0 {
        return 0;
      }
      if pos == |data| {
        return -1;
      }
      r := Min(buf.Length, |data| - pos);
      CopyInto(buf, 0, data[pos..pos + r]);
      pos := pos + r;
    }

    method Close()
      modifies this`closed
      ensures closed
    {
      closed := true;
    }
  }
}
