/**
 * The result sink: a fixed-capacity character buffer that collects one text
 * record per solution and writes its filled prefix to the output file when a
 * push leaves at most 200 free characters, and once more on destruction.
 */
module ResultsSink {
  import opened Powers
  import opened Decimal

  /** The largest `int`: `push` takes its four coordinates as `int`. */
  const INT_MAX: nat := 0x7FFF_FFFF
  /** A push that leaves `pos >= capacity - FLUSH_MARGIN` flushes the buffer. */
  const FLUSH_MARGIN: nat := 200

  /** The text of `"%d %d %d %d "`: each coordinate in decimal, followed by a space. */
  function Coords(xs: seq<nat>): string
  {
    if xs == [] then [] else Dec(xs[0]) + " " + Coords(xs[1..])
  }

  /** The text `push` appends for the solution a^N + b^N = c^N + d^N = sum: "a b c d sum\n". */
  function Record(a: nat, b: nat, c: nat, d: nat, sum: nat): string
  {
    Coords([a, b, c, d]) + FormatU128(sum) + "\n"
  }

  lemma {:induction false} CoordsLength(xs: seq<nat>)
    requires forall i :: 0 <= i < |xs| ==> xs[i] <= INT_MAX
    ensures |Coords(xs)| <= 11 * |xs|
  {
    if xs != [] {
      ChunkIsPow10();
      DecLength(xs[0], 10);
      CoordsLength(xs[1..]);
    }
  }

  /** A record of `int` coordinates and a u128 sum is at most 84 characters, well inside the margin. */
  lemma RecordFits(a: nat, b: nat, c: nat, d: nat, sum: nat)
    requires a <= INT_MAX && b <= INT_MAX && c <= INT_MAX && d <= INT_MAX && sum <= U128_MAX
    ensures |Record(a, b, c, d, sum)| <= 84 < FLUSH_MARGIN
  {
    ChunkIsPow10();
    CoordsLength([a, b, c, d]);
    PowAdd(10, 19, 19);
    PowAdd(10, 38, 1);
    DecLength(sum, 39);
  }

  class ResultsBuffer {
    /** The fixed-size character array (`BUFFER_SIZE` characters). */
    const buffer: array<char>
    /** The number of characters of `buffer` filled since the last flush. */
    var pos: nat
    /** Everything written to the output file so far. */
    ghost var file: seq<char>

    ghost predicate Valid()
      reads this
    {
      buffer.Length >= FLUSH_MARGIN && (pos == 0 || pos < buffer.Length - FLUSH_MARGIN)
    }

    /** The text pushed so far: what is in the file followed by what is still buffered. */
    ghost function Output(): seq<char>
      reads this, buffer
      requires Valid()
    {
      file + buffer[..pos]
    }

    /** `ResultsBuffer(f)`: an empty buffer over a freshly opened, empty output file. */
    constructor (capacity: nat)
      requires capacity >= FLUSH_MARGIN
      ensures Valid() && fresh(buffer)
      ensures buffer.Length == capacity && pos == 0 && file == []
    {
      buffer := new char[capacity];
      pos := 0;
      file := [];
    }

    /** `flush`: a non-empty buffer is written to the file and emptied; an empty one changes nothing. */
    method Flush()
      requires buffer.Length >= FLUSH_MARGIN && pos <= buffer.Length
      modifies this
      ensures Valid() && pos == 0
      ensures file == old(file) + old(buffer[..pos])
      ensures old(pos) == 0 ==> file == old(file)
    {
      if pos > 0 {
        file := file + buffer[..pos];
        pos := 0;
      }
    }

    /** `~ResultsBuffer`: one last flush, after which the file holds everything pushed. */
    method Close()
      requires Valid()
      modifies this
      ensures Valid() && pos == 0
      ensures file == old(Output())
    {
      Flush();
    }

    /** `push`: appends the record of one solution and flushes once at most 200 characters are left. */
    method Push(a: nat, b: nat, c: nat, d: nat, sum: nat) returns (flushed: bool)
      requires Valid()
      requires a <= INT_MAX && b <= INT_MAX && c <= INT_MAX && d <= INT_MAX && sum <= U128_MAX
      modifies this, buffer
      ensures Valid()
      ensures Output() == old(Output()) + Record(a, b, c, d, sum)
      ensures flushed <==> old(pos) + |Record(a, b, c, d, sum)| >= buffer.Length - FLUSH_MARGIN
      ensures flushed ==> pos == 0 && file == old(Output()) + Record(a, b, c, d, sum)
      ensures !flushed ==> file == old(file) && pos == old(pos) + |Record(a, b, c, d, sum)|
    {
      RecordFits(a, b, c, d, sum);
      Append(a, b, c, d, sum);
      flushed := FlushIfFull();
    }

    /** The tail of `push`: flushes exactly when at most `FLUSH_MARGIN` characters are left. */
    method FlushIfFull() returns (flushed: bool)
      requires buffer.Length >= FLUSH_MARGIN && pos <= buffer.Length
      modifies this
      ensures Valid()
      ensures flushed <==> old(pos) >= buffer.Length - FLUSH_MARGIN
      ensures flushed ==> pos == 0 && file == old(file) + old(buffer[..pos])
      ensures !flushed ==> file == old(file) && pos == old(pos)
    {
      if pos >= buffer.Length - FLUSH_MARGIN {
        Flush();
        flushed := true;
      } else {
        flushed := false;
      }
    }

    /** The three writes of `push`: the coordinates, the decimal sum and the newline. */
    method Append(a: nat, b: nat, c: nat, d: nat, sum: nat)
      requires pos + |Record(a, b, c, d, sum)| <= buffer.Length
      modifies this`pos, buffer
      ensures pos == old(pos) + |Record(a, b, c, d, sum)|
      ensures buffer[..pos] == old(buffer[..pos]) + Record(a, b, c, d, sum)
    {
      var coords := Coords([a, b, c, d]);
      var digits := FormatU128(sum);
      Put(coords);
      Put(digits);
      ghost var filled := buffer[..pos];
      buffer[pos] := '\n';
      pos := pos + 1;
      assert buffer[..pos] == filled + "\n";
    }

    /** Copies `s` into the buffer at `pos` (one `sprintf` into `buffer + pos`). */
    method Put(s: string)
      requires pos + |s| <= buffer.Length
      modifies this`pos, buffer
      ensures pos == old(pos) + |s|
      ensures buffer[..pos] == old(buffer[..pos]) + s
    {
      var i := 0;
      while i < |s|
        invariant 0 <= i <= |s| && pos == old(pos) + i
        invariant buffer[..pos] == old(buffer[..pos]) + s[..i]
      {
        buffer[pos] := s[i];
        pos := pos + 1;
        i := i + 1;
      }
    }
  }
}
