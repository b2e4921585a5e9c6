/**
 * The two ends of `std::io` the codecs touch: a reader over a byte slice
 * (`&[u8]`, consumed from the front) and a writer into a fixed-size byte
 * buffer (`&mut [u8]`).  Both are the standard library's slice
 * implementations; a `Vec<u8>` writer is the slice writer with enough room.
 */
module Io {
  import opened Runtime
  import opened Bytes

  datatype IoErrorKind = UnexpectedEof | WriteZero

  /** `minimint_api::encoding::DecodeError`: built `from_err` an I/O error
      or `from_str` a message. */
  datatype DecodeError = FromIo(kind: IoErrorKind) | FromStr(message: string)

  class Reader {
    const data: seq<byte>
    var pos: nat

    ghost predicate Valid()
      reads this
    {
      pos <= |data|
    }

    /** The bytes not yet consumed. */
    function Remaining(): seq<byte>
      reads this
      requires Valid()
    {
      data[pos..]
    }

    constructor (data: seq<byte>)
      ensures Valid() && this.data == data && pos == 0 && Remaining() == data
    {
      this.data := data;
      pos := 0;
    }

    /** `Read::read_exact` on a slice: fills `buf` from the front of the
        remaining input, or, when fewer bytes remain, consumes them all,
        leaves `buf` as it was and fails with `UnexpectedEof`. */
    method ReadExact(buf: array<byte>) returns (r: Result<(), IoErrorKind>)
      requires Valid()
      modifies this, buf
      ensures Valid()
      ensures old(|Remaining()|) >= buf.Length ==>
                r == Ok(()) && buf[..] == old(Remaining())[..buf.Length]
                && Remaining() == old(Remaining())[buf.Length..]
      ensures old(|Remaining()|) < buf.Length ==>
                r == Err(UnexpectedEof) && buf[..] == old(buf[..]) && Remaining() == []
    {
      if |data| - pos < buf.Length {
        pos := |data|;
        return Err(UnexpectedEof);
      }
      forall j | 0 <= j < buf.Length {
        buf[j] := data[pos + j];
      }
      pos := pos + buf.Length;
      r := Ok(());
    }
  }

  class SliceWriter {
    const buf: array<byte>
    var pos: nat

    ghost predicate Valid()
      reads this
    {
      pos <= buf.Length
    }

    /** The bytes written so far. */
    function Written(): seq<byte>
      reads this, buf
      requires Valid()
    {
      buf[..pos]
    }

    function Room(): nat
      reads this
      requires Valid()
    {
      buf.Length - pos
    }

    constructor (buf: array<byte>)
      ensures Valid() && this.buf == buf && pos == 0 && Written() == []
    {
      this.buf := buf;
      pos := 0;
    }

    /** `Write::write` on a slice: copies as much of `data` as fits and
        reports how much that was; it never fails. */
    method Write(data: seq<byte>) returns (n: nat)
      requires Valid()
      modifies this, buf
      ensures Valid()
      ensures n == Min(|data|, old(Room()))
      ensures Written() == old(Written()) + data[..n]
      ensures buf[pos..] == old(buf[..])[pos..]
    {
      n := Min(|data|, buf.Length - pos);
      forall j | 0 <= j < n {
        buf[pos + j] := data[j];
      }
      pos := pos + n;
    }

    /** `Write::write_all` on a slice: copies as much of `data` as fits and
        fails with `WriteZero` unless that was all of it. */
    method WriteAll(data: seq<byte>) returns (r: Result<(), IoErrorKind>)
      requires Valid()
      modifies this, buf
      ensures Valid()
      ensures r == if |data| <= old(Room()) then Ok(()) else Err(WriteZero)
      ensures Written() == old(Written()) + data[..Min(|data|, old(Room()))]
      ensures buf[pos..] == old(buf[..])[pos..]
    {
      var n := Write(data);
      r := if n == |data| then Ok(()) else Err(WriteZero);
    }
  }
}
