/** Byte streams as the header codec sees them: a source that is read from the
    front and a target that is appended to. They stand for Rust's `Read` and
    `Write` traits, restricted to the two calls the codec makes on them
    (`read_exact` and `write_all`). */
module Io {

  /** An unsigned 8-bit value (Rust `u8`). */
  type Byte = x: int | 0 <= x < 0x100

  /** The two ways a stream operation of this model can fail. */
  datatype IoError =
    | UnexpectedEof   // the source ran out before the requested bytes were read
    | WriteZero       // the target accepted no more bytes

  /** The outcome of a stream operation that yields a value (Rust `io::Result<T>`). */
  datatype Result<+T> = Ok(value: T) | Err(error: IoError) {
    predicate IsFailure() {
      Err?
    }

    function PropagateFailure<U>(): Result<U>
      requires Err?
    {
      Err(error)
    }

    function Extract(): T
      requires Ok?
    {
      value
    }
  }

  /** The outcome of a stream operation that yields nothing (Rust `io::Result<()>`). */
  datatype Outcome = Pass | Fail(error: IoError) {
    predicate IsFailure() {
      Fail?
    }

    function PropagateFailure<U>(): Result<U>
      requires Fail?
    {
      Err(error)
    }
  }

  /** `n` zero bytes (Rust `[0; n]`). */
  function Zeroes(n: nat): (r: seq<Byte>)
    ensures |r| == n
    ensures forall i :: 0 <= i < n ==> r[i] == 0
  {
    seq(n, _ => 0)
  }

  /** Appending in two steps is appending once. */
  lemma AppendAssoc(a: seq<Byte>, b: seq<Byte>, c: seq<Byte>)
    ensures (a + b) + c == a + (b + c)
  {
  }

  /** A prefix followed by the slice after it is a longer prefix. */
  lemma PrefixExtend(s: seq<Byte>, i: nat, j: nat)
    requires i <= j <= |s|
    ensures s[..i] + s[i..j] == s[..j]
  {
  }

  /** A readable stream: all the bytes it can deliver and a cursor that
      separates those already read from the rest. */
  class Reader {
    const data: seq<Byte>
    var pos: nat

    ghost predicate Valid()
      reads this
    {
      pos <= |data|
    }

    /** The bytes the stream has not yet delivered. */
    ghost function Remaining(): seq<Byte>
      reads this
      requires Valid()
    {
      data[pos..]
    }

    constructor (data: seq<Byte>)
      ensures Valid() && this.data == data && pos == 0
    {
      this.data, pos := data, 0;
    }

    /** Delivers exactly `n` bytes from the front of the stream, or fails when
        fewer than `n` are left. Where the cursor stands after a failure is
        unspecified. */
    method ReadExact(n: nat) returns (r: Result<seq<Byte>>)
      requires Valid()
      modifies this
      ensures Valid()
      ensures r.Ok? <==> old(pos) + n <= |data|
      ensures r.Ok? ==> r.value == data[old(pos)..old(pos) + n] && pos == old(pos) + n
      ensures r.Err? ==> r.error == UnexpectedEof
    {
      if pos + n <= |data| {
        r := Ok(data[pos..pos + n]);
        pos := pos + n;
      } else {
        r := Err(UnexpectedEof);
        pos := |data|;
      }
    }
  }

  /** A writable stream: the bytes written so far and how many more it accepts. */
  class Writer {
    var written: seq<Byte>
    var room: nat

    constructor (capacity: nat)
      ensures written == [] && room == capacity
    {
      written, room := [], capacity;
    }

    /** Appends all of `bytes`, or fails when they do not fit. What was written
        before a failure is unspecified. */
    method WriteAll(bytes: seq<Byte>) returns (r: Outcome)
      modifies this
      ensures r.Pass? <==> |bytes| <= old(room)
      ensures r.Pass? ==> written == old(written) + bytes && room == old(room) - |bytes|
      ensures r.Fail? ==> r.error == WriteZero
    {
      if |bytes| <= room {
        written, room := written + bytes, room - |bytes|;
        r := Pass;
      } else {
        r := Fail(WriteZero);
      }
    }
  }
}
