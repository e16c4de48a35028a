/**
 * `OStream<buf_size_>`: a buffered character writer. Writes are copied into
 * a fixed buffer of `len` characters; `flush` hands the buffered prefix
 * `buff_[0 .. curr_)` to the output handler, and a write larger than the
 * whole buffer bypasses the buffer.
 *
 * The handler is a function pointer that may be null. Here `handler` says
 * whether it is set, and `log` records, in order, every view the stream has
 * passed to it; what the handler does with a view is outside the model.
 * A view is given by the characters it shows.
 */
module OStreams {
  import Memory
  import IntKinds
  import CharConv
  import Results

  /** `KTA_OSTREAM_BUFSIZE_`, the default buffer size. */
  const DefaultBufSize: nat := 1024

  /** A view handed to the handler, by its characters. */
  type Chunk = seq<char>

  /** The stream's state: `len` is `buf_size_`, `buf` is `buff_`, `curr` is
      `curr_`, `base` is `base_`, `handler` says whether the handler pointer
      is set, and `log` lists the views passed to the handler so far. */
  datatype OStream = OStream(len: nat, buf: seq<char>, curr: nat, base: int, handler: bool, log: seq<Chunk>)

  /** What every operation keeps: a buffer of the template's size (a C
      array has at least one element), `curr <= len`, and one of the two
      bases the manipulators set. */
  predicate Valid(s: OStream) {
    s.len >= 1 && |s.buf| == s.len && s.curr <= s.len &&
    (s.base == CharConv.BaseDec || s.base == CharConv.BaseHex)
  }

  /** The configuration an operation never changes. */
  predicate SameConfig(a: OStream, b: OStream) {
    a.len == b.len && a.base == b.base && a.handler == b.handler
  }

  /** `buffer_max_size()`: in a valid stream, the length of the whole
      buffer, and at least one character. */
  function BufferMaxSize(s: OStream): (n: nat)
    ensures Valid(s) ==> n == |s.buf| && n >= 1
  {
    s.len
  }

  /** `buffer_current()`: in a valid stream, how many characters are held
      back in the buffer, never more than it can take. */
  function BufferCurrent(s: OStream): (n: nat)
    ensures Valid(s) ==> n == |Buffered(s)| && n <= BufferMaxSize(s)
  {
    s.curr
  }

  /** `buffer_remaining()`: `len_ - curr_`. */
  function BufferRemaining(s: OStream): (n: nat)
    requires Valid(s)
    ensures BufferCurrent(s) + n == BufferMaxSize(s)
  {
    s.len - s.curr
  }

  /** `buffer_data()`: the whole buffer, stale characters included. */
  function BufferData(s: OStream): (b: seq<char>)
    requires Valid(s)
    ensures |b| == BufferMaxSize(s)
  {
    s.buf
  }

  /** `OStream()` and `OStream(of)`: a zeroed buffer, nothing buffered,
      decimal output, nothing emitted yet. */
  function New(len: nat, handler: bool): (s: OStream)
    requires len >= 1
    ensures Valid(s) && s.handler == handler && s.log == []
    ensures BufferCurrent(s) == 0 && BufferRemaining(s) == BufferMaxSize(s) == len
    ensures s.base == CharConv.BaseDec
    ensures forall i :: 0 <= i < len ==> BufferData(s)[i] == '\0'
  {
    OStream(len, seq(len, _ => '\0'), 0, CharConv.BaseDec, handler, [])
  }

  /** All characters handed to the handler, in order. */
  function Concat(chunks: seq<Chunk>): seq<char> {
    if chunks == [] then [] else Concat(chunks[..|chunks| - 1]) + chunks[|chunks| - 1]
  }

  lemma ConcatSnoc(chunks: seq<Chunk>, c: seq<char>)
    ensures Concat(chunks + [c]) == Concat(chunks) + c
  {
    assert (chunks + [c])[..|chunks|] == chunks;
  }

  /** The characters currently buffered, `buff_[0 .. curr_)`. */
  function Buffered(s: OStream): seq<char> {
    if s.curr <= |s.buf| then s.buf[..s.curr] else s.buf
  }

  /** Everything written so far that has not been dropped: what the handler
      received, followed by what is still buffered. */
  function Pending(s: OStream): seq<char> {
    Concat(s.log) + Buffered(s)
  }

  /** `to_buffer(buff)`: asserts that `curr <= len`, that the view fits in
      the remaining space and that it is not empty; copies it to
      `buff_[curr_ ..]` and advances `curr_`. */
  function ToBuffer(s: OStream, data: seq<char>): (r: OStream)
    requires Valid(s) && |data| <= s.len - s.curr && |data| != 0
    ensures Valid(r) && SameConfig(r, s) && r.log == s.log
    ensures r.curr == s.curr + |data| && Buffered(r) == Buffered(s) + data
    ensures forall i :: r.curr <= i < r.len ==> r.buf[i] == s.buf[i]
  {
    s.(buf := s.buf[..s.curr] + data + s.buf[s.curr + |data|..], curr := s.curr + |data|)
  }

  /** `handler(view)` guarded by `handler != nullptr`: the view is recorded
      exactly when a handler is set; nothing else about the stream changes. */
  function Emit(s: OStream, view: Chunk): (r: OStream)
    ensures r.(log := s.log) == s
    ensures s.handler ==> Concat(r.log) == Concat(s.log) + view
    ensures !s.handler ==> r.log == s.log
  {
    ConcatSnoc(s.log, view);
    if s.handler then s.(log := s.log + [view]) else s
  }

  /** `flush()`: when something is buffered, passes `buff_[0 .. curr_)` to
      the handler if there is one, and empties the buffer either way. The
      characters stay in `buff_`; only `curr_` is reset. */
  function Flush(s: OStream): (r: OStream)
    requires Valid(s)
    ensures Valid(r) && SameConfig(r, s) && r.buf == s.buf
    ensures r.curr == 0
    ensures s.curr > 0 && s.handler ==> r.log == s.log + [s.buf[..s.curr]]
    ensures s.curr == 0 || !s.handler ==> r.log == s.log
  {
    if s.curr > 0 then Emit(s, s.buf[..s.curr]).(curr := 0) else s
  }

  /** `write(buff)`: an empty view is ignored; a view longer than the whole
      buffer flushes and then goes to the handler directly; a view that
      does not fit in the remaining space flushes first and is then
      buffered; any other view is buffered. */
  function Write(s: OStream, data: seq<char>): (r: OStream)
    requires Valid(s)
    ensures Valid(r) && SameConfig(r, s)
    ensures |data| == 0 ==> r == s
    ensures 0 < |data| <= BufferRemaining(s) ==> r.log == s.log && Buffered(r) == Buffered(s) + data
    ensures BufferRemaining(s) < |data| <= s.len ==> r.log == Flush(s).log && Buffered(r) == data
    ensures |data| > s.len ==> Buffered(r) == []
    ensures |data| > s.len && s.handler ==> r.log == Flush(s).log + [data]
    ensures |data| > s.len && !s.handler ==> r.log == Flush(s).log
  {
    if |data| == 0 then s
    else if |data| > s.len then Emit(Flush(s), data)
    else if s.len - s.curr < |data| then ToBuffer(Flush(s), data)
    else ToBuffer(s, data)
  }

  /** With a handler, flushing loses nothing and reorders nothing. */
  lemma FlushConserves(s: OStream)
    requires Valid(s) && s.handler
    ensures Pending(Flush(s)) == Pending(s)
  {
    if s.curr > 0 {
      ConcatSnoc(s.log, s.buf[..s.curr]);
    }
  }

  /** With a handler, a write appends exactly its characters to everything
      written before, whichever path it takes. */
  lemma WriteConserves(s: OStream, data: seq<char>)
    requires Valid(s) && s.handler
    ensures Pending(Write(s, data)) == Pending(s) + data
  {
    if |data| == 0 {
    } else if |data| > s.len {
      DirectWriteConserves(s, data);
    } else if s.len - s.curr < |data| {
      FlushedWriteConserves(s, data);
    } else {
      BufferedWriteConserves(s, data);
    }
  }

  /** A view longer than the buffer: flushed output, then the view itself. */
  lemma DirectWriteConserves(s: OStream, data: seq<char>)
    requires Valid(s) && s.handler && |data| > s.len
    ensures Pending(Write(s, data)) == Pending(s) + data
  {
    FlushConserves(s);
    ConcatSnoc(Flush(s).log, data);
  }

  /** A view that does not fit what is left: flushed output, then the view
      buffered from the start. */
  lemma FlushedWriteConserves(s: OStream, data: seq<char>)
    requires Valid(s) && s.handler && s.len - s.curr < |data| <= s.len
    ensures Pending(Write(s, data)) == Pending(s) + data
  {
    FlushConserves(s);
    assert Pending(Flush(s)) == Concat(Flush(s).log);
  }

  /** A view that fits: appended to what is buffered, the log untouched. */
  lemma BufferedWriteConserves(s: OStream, data: seq<char>)
    requires Valid(s) && 0 < |data| <= s.len - s.curr
    ensures Pending(Write(s, data)) == Pending(s) + data
  {
    var r := Write(s, data);
    assert Buffered(r) == Buffered(s) + data;
  }

  /** Without a handler nothing is ever emitted. */
  lemma NoHandlerNoOutput(s: OStream, data: seq<char>)
    requires Valid(s) && !s.handler
    ensures Write(s, data).log == s.log && Flush(s).log == s.log
  {
  }

  /** `operator<<(char)`: writes the C string `{ch, '\0'}`, so a NUL
      character writes nothing. */
  function WriteChar(s: OStream, ch: char): (r: OStream)
    requires Valid(s)
    ensures ch == '\0' ==> r == s
    ensures ch != '\0' ==> r == Write(s, [ch])
  {
    var dummy := [ch, '\0'];
    assert Memory.Terminated(dummy, 0) by { assert dummy[1] == '\0'; }
    Write(s, Memory.CString(dummy, 0))
  }

  /** `operator<<(Endl_)`: a newline, then a flush. */
  function Endl(s: OStream): (r: OStream)
    requires Valid(s)
    ensures Valid(r) && SameConfig(r, s) && r.curr == 0
    ensures s.handler ==> Concat(r.log) == Pending(s) + "\n"
  {
    var r := Flush(WriteChar(s, '\n'));
    if s.handler then
      WriteConserves(s, "\n");
      FlushConserves(WriteChar(s, '\n'));
      r
    else r
  }

  /** `operator<<(Hex_)`: later integers are written in base 16. */
  function Hex(s: OStream): (r: OStream)
    requires Valid(s)
    ensures Valid(r) && r.base == CharConv.BaseHex
    ensures r.(base := s.base) == s
  {
    s.(base := CharConv.BaseHex)
  }

  /** `operator<<(Dec_)`: later integers are written in base 10. */
  function Dec(s: OStream): (r: OStream)
    requires Valid(s)
    ensures Valid(r) && r.base == CharConv.BaseDec
    ensures r.(base := s.base) == s
  {
    s.(base := CharConv.BaseDec)
  }

  /** What the 40-character buffer of the number writers holds as a C
      string once `to_chars` has succeeded and `buff[39]` is set to NUL:
      the text, cut to 39 characters. */
  function Shown(t: seq<char>): (v: seq<char>)
    ensures |t| <= 39 ==> v == t
    ensures |t| > 39 ==> v == t[..39]
  {
    if |t| <= 39 then t else t[..39]
  }

  /** The 40-character buffer holding the text, cut at 39 characters and
      padded with NULs, reads as the C string `Shown(t)`. */
  lemma ShownIsCString(b: seq<char>, t: seq<char>)
    requires |b| == 40 && |t| <= 40
    requires forall i :: 0 <= i < 40 ==> b[i] == if i < |t| && i < 39 then t[i] else '\0'
    requires forall i :: 0 <= i < |t| ==> t[i] != '\0'
    ensures Memory.Terminated(b, 0) && Memory.CString(b, 0) == Shown(t)
  {
    var n := if |t| <= 39 then |t| else 39;
    assert b[n] == '\0';
    assert Memory.Terminated(b, 0);
    assert b[..n] == Shown(t);
  }

  /** The body shared by the integer and pointer writers: render `num` into a
      zeroed 40-character buffer, and on success terminate it at index 39
      and write it as a C string; a failed conversion writes nothing. */
  method WriteNumber(s: OStream, k: IntKinds.IntKind, num: int, base: int) returns (r: OStream)
    requires Valid(s) && IntKinds.Supported(k) && IntKinds.InRange(k, num)
    requires CharConv.ValidBase(base)
    ensures |CharConv.Text(base, num)| <= 40 ==> r == Write(s, Shown(CharConv.Text(base, num)))
    ensures |CharConv.Text(base, num)| > 40 ==> r == s
  {
    var buff := seq(40, _ => '\0');
    var b, res := CharConv.ToChars(k, num, buff, base);
    if !Results.HasValue(res) {
      return s;
    }
    ghost var b0 := b;
    b := b[39 := '\0'];
    ghost var t := CharConv.Text(base, num);
    CharConv.TextHasNoNul(base, num);
    forall i | 0 <= i < 40
      ensures b[i] == if i < |t| && i < 39 then t[i] else '\0'
    {
      if i < |t| && i < 39 {
        assert b[i] == b0[..|t|][i];
      } else if i < 39 {
        assert b[i] == b0[|t|..][i - |t|];
      }
    }
    ShownIsCString(b, t);
    var view := Memory.CString(b, 0);
    r := Write(s, view);
  }

  /** `operator<<(Int)` for signed and unsigned integer types: the number in
      the stream's current base. */
  method WriteInt(s: OStream, k: IntKinds.IntKind, num: int) returns (r: OStream)
    requires Valid(s) && IntKinds.Supported(k) && IntKinds.InRange(k, num)
    ensures |CharConv.Text(s.base, num)| <= 40 ==> r == Write(s, Shown(CharConv.Text(s.base, num)))
    ensures |CharConv.Text(s.base, num)| > 40 ==> r == s
  {
    r := WriteNumber(s, k, num, s.base);
  }

  /** `operator<<(void*)`: the address as a 64-bit unsigned number in base
      16, whatever the stream's base. */
  method WritePointer(s: OStream, ptr: Memory.U64) returns (r: OStream)
    requires Valid(s)
    ensures |CharConv.Text(16, ptr)| <= 40 ==> r == Write(s, Shown(CharConv.Text(16, ptr)))
    ensures r.base == s.base
  {
    r := WriteNumber(s, IntKinds.IntKind(64, false), ptr, 16);
  }

  /** The stream's behaviour on a new stream of the default size: a short
      write is buffered, and a write of more than the whole buffer is
      handed straight to the handler. */
  lemma DefaultStreamExamples()
    ensures var s := Write(New(DefaultBufSize, true), "hello");
            BufferCurrent(s) == 5 && BufferRemaining(s) == 1019 && s.log == []
    ensures var big := seq(1025, _ => 'a');
            var s := Write(Write(New(DefaultBufSize, true), "hi"), big);
            BufferCurrent(s) == 0 && s.log == ["hi", big]
  {
    var s0 := New(DefaultBufSize, true);
    var s1 := Write(s0, "hi");
    assert s1.buf[..2] == "hi";
  }
}
