/** Buffered reading and writing over a kernel that interrupts calls and transfers less than it is asked for.

    The kernel's behaviour is a script of answers, one for each call: an interruption, a transfer of so many
    bytes at most, or a hard error.  When the script is used up every call transfers all it can.  The script
    is arbitrary; what is claimed of the stream is claimed for scripts without hard errors and without
    writes that transfer nothing. */
module BufferedIo {
  import opened Common

  type Byte = x: int | 0 <= x < 256

  const NEWLINE: Byte := 10
  const EINTR := 4
  const EIO := 5

  datatype Answer = Interrupt | Transfer(most: nat) | Fail

  predicate Clean(script: seq<Answer>) {
    forall i :: 0 <= i < |script| ==> script[i].Interrupt? || (script[i].Transfer? && script[i].most > 0)
  }

  // How much the answers allow to be transferred.
  function Moved(answers: seq<Answer>): nat {
    if answers == [] then 0
    else
      var a := answers[|answers| - 1];
      Moved(answers[..|answers| - 1]) + if a.Transfer? then a.most else 0
  }

  // The result of a call that could transfer `most` bytes.
  function Answered(a: Answer, most: nat): int {
    match a
    case Interrupt => -EINTR
    case Fail => -EIO
    case Transfer(n) => Min(n, most)
  }

  // The loops have used up p answers and moved n bytes, when `want` bytes are wanted and `avail` are to be had.
  predicate Moving(script: seq<Answer>, p: nat, want: nat, avail: nat, n: nat) {
    && p <= |script| && Clean(script[..p])
    && (p > 0 ==> Min(Moved(script[..p - 1]), avail) < want)
    && (n == Min(Moved(script[..p]), Min(want, avail)) || (p == |script| && n == Min(want, avail)))
  }

  // How they end: no answer is asked for when all is moved; a hard error comes out as the result, whatever was moved
  // before it; and without one the result is what was moved, which is all there is unless a call moved nothing.
  predicate Ended(script: seq<Answer>, p: nat, want: nat, avail: nat, n: nat, ret: int) {
    && p <= |script| && n <= Min(want, avail)
    && (p > 0 ==> Clean(script[..p - 1]) && Min(Moved(script[..p - 1]), avail) < want)
    && (n == Min(Moved(script[..p]), Min(want, avail)) || (p == |script| && Clean(script) && n == Min(want, avail)))
    && ret == (if p > 0 && script[p - 1].Fail? then -EIO else n)
    && (ret >= 0 && n < Min(want, avail) ==> p > 0 && script[p - 1] == Transfer(0))
  }

  lemma MoveOn(script: seq<Answer>, p: nat, want: nat, avail: nat, n: nat)
    requires Moving(script, p, want, avail, n) && n < want
    ensures p < |script| ==> var r := Answered(script[p], Min(want, avail) - n);
      && (r == -EINTR ==> Moving(script, p + 1, want, avail, n))
      && (r > 0 ==> Moving(script, p + 1, want, avail, n + r))
      && (r == 0 ==> Ended(script, p + 1, want, avail, n, n))
      && (r == -EIO ==> Ended(script, p + 1, want, avail, n, r))
    ensures p == |script| ==> var all := Min(want, avail);
      Moving(script, p, want, avail, all) && Ended(script, p, want, avail, all, all)
  {
    if p < |script| {
      assert script[..p + 1][..p] == script[..p] && script[..p + 1][p] == script[p];
      assert script[..p + 1] == script[..p] + [script[p]];
    } else {
      assert script[..p] == script;
    }
  }

  lemma StartMoving(script: seq<Answer>, want: nat, avail: nat)
    ensures Moving(script, 0, want, avail, 0)
  {
  }

  lemma AllMoved(script: seq<Answer>, p: nat, want: nat, avail: nat, n: nat)
    requires Moving(script, p, want, avail, n) && n == want <= avail
    ensures Ended(script, p, want, avail, n, n)
  {
    if p == |script| { assert script[..p] == script; }
    if p > 0 { assert script[..p][p - 1] == script[p - 1]; }
  }

  // Only a script that is not clean ends the loops before all is moved.
  lemma NotClean(script: seq<Answer>, p: nat, want: nat, avail: nat, n: nat, ret: int)
    requires Ended(script, p, want, avail, n, ret)
    ensures Clean(script) ==> ret == n == Min(want, avail)
  {
  }

  // A single call is repeated while it is interrupted; p answers are used up.
  predicate Retried(script: seq<Answer>, p: nat, most: nat, ret: int) {
    && p <= |script| && (forall i :: 0 <= i < p - 1 ==> script[i] == Interrupt)
    && ret == (if p > 0 && script[p - 1] != Interrupt then Answered(script[p - 1], most) else most)
    && (p > 0 && script[p - 1] == Interrupt ==> p == |script|) && (p == 0 ==> script == [])
  }

  // Copies bytes into a buffer from place `at` on.
  method CopyIn(data: seq<Byte>, buf: array<Byte>, at: nat)
    requires at + |data| <= buf.Length
    modifies buf
    ensures buf[..at] == old(buf[..at]) && buf[at..at + |data|] == data
  {
    forall k | 0 <= k < |data| { buf[at + k] := data[k]; }
  }

  // A file descriptor: what has been written to it, and what can still be read from it.
  class Kernel {
    var script: seq<Answer>
    var output: seq<Byte>
    var input: seq<Byte>

    constructor (script: seq<Answer>, input: seq<Byte>)
      ensures this.script == script && this.input == input && output == []
    {
      this.script, this.input, this.output := script, input, [];
    }

    // The next answer, and the rest of the script.
    method Next() returns (a: Option<Answer>)
      modifies this`script
      ensures old(script) == [] ==> a == None && script == []
      ensures old(script) != [] ==> a == Some(old(script)[0]) && script == old(script)[1..]
    {
      if script == [] { return None; }
      a := Some(script[0]);
      script := script[1..];
    }

    // How many of the answers have been used up since the script was `was`.
    function Used(was: seq<Answer>): int
      reads this`script
    {
      |was| - |script|
    }

    // The write call on the bytes of `data`.
    method Write(data: seq<Byte>) returns (ret: int)
      modifies this`script, this`output
      ensures ret <= |data| && output == old(output) + data[..if ret < 0 then 0 else ret]
      ensures old(script) == [] ==> ret == |data| && script == []
      ensures old(script) != [] ==> ret == Answered(old(script)[0], |data|) && script == old(script)[1..]
    {
      var a := Next();
      match a {
        case Some(Interrupt) => ret := -EINTR;
        case Some(Fail) => ret := -EIO;
        case Some(Transfer(most)) => ret := Min(most, |data|);
        case None => ret := |data|;
      }
      output := output + data[..if ret < 0 then 0 else ret];
    }

    // The read call into the `count` places of buf from `at` on.
    method Read(buf: array<Byte>, at: nat, count: nat) returns (ret: int)
      requires at + count <= buf.Length
      modifies this`script, this`input, buf
      ensures ret <= count && ret <= |old(input)| && buf[..at] == old(buf[..at])
      ensures var n := if ret < 0 then 0 else ret; buf[at..at + n] == old(input)[..n] && input == old(input)[n..]
      ensures old(script) == [] ==> ret == Min(count, |old(input)|) && script == []
      ensures old(script) != [] ==>
        ret == Answered(old(script)[0], Min(count, |old(input)|)) && script == old(script)[1..]
    {
      var a := Next();
      match a {
        case Some(Interrupt) => ret := -EINTR;
        case Some(Fail) => ret := -EIO;
        case Some(Transfer(most)) => ret := Min(Min(most, count), |input|);
        case None => ret := Min(count, |input|);
      }
      if ret > 0 {
        CopyIn(input[..ret], buf, at);
        input := input[ret..];
      }
    }

    // lc_kernel_write_all
    method WriteAll(data: seq<Byte>) returns (ret: int, ghost n: nat)
      modifies this`script, this`output
      // n bytes were written, as the answers allow; a hard error is returned as such
      ensures n <= |data| && output == old(output) + data[..n]
      ensures 0 <= Used(old(script)) <= |old(script)| && script == old(script)[Used(old(script))..]
      ensures Ended(old(script), Used(old(script)), |data|, |data|, n, ret)
      ensures Clean(old(script)) ==> Clean(script) && ret == |data| && output == old(output) + data
    {
      hide Moving, Ended;
      var written := 0;
      StartMoving(script, |data|, |data|);
      while written < |data|
        invariant 0 <= written <= |data| && output == old(output) + data[..written]
        invariant 0 <= Used(old(script)) <= |old(script)| && script == old(script)[Used(old(script))..]
        invariant Moving(old(script), Used(old(script)), |data|, |data|, written)
        decreases |data| - written, |script|
      {
        MoveOn(old(script), Used(old(script)), |data|, |data|, written);
        ret := Write(data[written..]);
        if ret < 0 {
          if ret == -EINTR { continue; }
          n := written;
          NotClean(old(script), Used(old(script)), |data|, |data|, n, ret);
          return;
        }
        if ret == 0 { break; }
        SentSoFar(old(output), data, written, ret);
        written := written + ret;
      }
      ret, n := written, written;
      if written == |data| {
        AllMoved(old(script), Used(old(script)), |data|, |data|, n);
      }
      NotClean(old(script), Used(old(script)), |data|, |data|, n, ret);
    }

    // lc_kernel_read_retry: interruptions are skipped, and the answer after them is the result.
    method ReadRetry(buf: array<Byte>, count: nat) returns (ret: int)
      requires count <= buf.Length
      modifies this`script, this`input, buf
      ensures ret != -EINTR && ret <= count && ret <= |old(input)|
      ensures var n := if ret < 0 then 0 else ret; buf[..n] == old(input)[..n] && input == old(input)[n..]
      ensures 0 <= Used(old(script)) <= |old(script)| && script == old(script)[Used(old(script))..]
      ensures Retried(old(script), Used(old(script)), Min(count, |old(input)|), ret)
      ensures Clean(old(script)) ==> Clean(script) && ret >= 0 && (ret == 0 <==> count == 0 || old(input) == [])
    {
      while true
        invariant input == old(input)
        invariant 0 <= Used(old(script)) <= |old(script)| && script == old(script)[Used(old(script))..]
        invariant forall i :: 0 <= i < Used(old(script)) ==> old(script)[i] == Interrupt
        decreases |script|
      {
        ret := Read(buf, 0, count);
        if ret != -EINTR { return; }
      }
    }

    // The read call of lc_kernel_read_all, behind the `total` bytes already read.
    method ReadPiece(buf: array<Byte>, total: nat, count: nat, ghost all: seq<Byte>) returns (ret: int)
      requires total < count <= buf.Length && total <= |all|
      requires buf[..total] == all[..total] && input == all[total..]
      modifies this`script, this`input, buf
      ensures total + ret <= count && total + ret <= |all|
      ensures var n := total + if ret < 0 then 0 else ret; buf[..n] == all[..n] && input == all[n..]
      ensures old(script) == [] ==> ret == Min(count, |all|) - total && script == []
      ensures old(script) != [] ==>
        ret == Answered(old(script)[0], Min(count, |all|) - total) && script == old(script)[1..]
    {
      ret := Read(buf, total, count - total);
      ghost var n := if ret < 0 then 0 else ret;
      assert buf[..total + n] == buf[..total] + buf[total..total + n];
      JoinChunk(all, total, n);
    }

    // lc_kernel_read_all
    method ReadAll(buf: array<Byte>, count: nat) returns (ret: int, ghost n: nat)
      requires count <= buf.Length
      modifies this`script, this`input, buf
      // n bytes were read, as the answers allow; a hard error is returned as such
      ensures n <= count && n <= |old(input)| && buf[..n] == old(input)[..n] && input == old(input)[n..]
      ensures 0 <= Used(old(script)) <= |old(script)| && script == old(script)[Used(old(script))..]
      ensures Ended(old(script), Used(old(script)), count, |old(input)|, n, ret)
      ensures Clean(old(script)) ==> Clean(script) && ret == Min(count, |old(input)|)
    {
      hide Moving, Ended;
      var total := 0;
      StartMoving(script, count, |input|);
      while total < count
        invariant 0 <= total <= count && total <= |old(input)|
        invariant buf[..total] == old(input)[..total] && input == old(input)[total..]
        invariant 0 <= Used(old(script)) <= |old(script)| && script == old(script)[Used(old(script))..]
        invariant Moving(old(script), Used(old(script)), count, |old(input)|, total)
        decreases count - total, |script|
      {
        MoveOn(old(script), Used(old(script)), count, |old(input)|, total);
        ret := ReadPiece(buf, total, count, old(input));
        if ret < 0 {
          if ret == -EINTR { continue; }
          n := total;
          NotClean(old(script), Used(old(script)), count, |old(input)|, n, ret);
          return;
        }
        if ret == 0 { break; }
        total := total + ret;
      }
      ret, n := total, total;
      if total == count {
        AllMoved(old(script), Used(old(script)), count, |old(input)|, n);
      }
      NotClean(old(script), Used(old(script)), count, |old(input)|, n, ret);
    }
  }

  // ----- the writer -----

  class Writer {
    const kernel: Kernel
    const buffer: array<Byte>
    var used: nat
    ghost var sent: seq<Byte>      // everything that has been put

    // What has reached the kernel and what is buffered make up everything put so far.
    ghost predicate Valid()
      reads this, kernel, buffer
    {
      && buffer.Length >= 1 && used <= buffer.Length && Clean(kernel.script)
      && kernel.output + buffer[..used] == sent
    }

    constructor (kernel: Kernel, capacity: nat)
      requires capacity >= 1 && Clean(kernel.script)
      ensures Valid() && fresh(buffer) && this.kernel == kernel && sent == kernel.output
    {
      this.kernel, used, sent := kernel, 0, kernel.output;
      buffer := new Byte[capacity](_ => 0);
    }

    method Flush()
      requires Valid()
      modifies this`used, kernel
      ensures Valid() && used == 0 && kernel.output == sent
    {
      if used == 0 { return; }
      var _, _ := kernel.WriteAll(buffer[..used]);
      used := 0;
    }

    method PutByte(b: Byte)
      requires Valid()
      modifies this, kernel, buffer
      ensures Valid() && sent == old(sent) + [b]
    {
      if used >= buffer.Length {
        Flush();
      }
      buffer[used] := b;
      used := used + 1;
      sent := sent + [b];
    }

    // Copies a piece that fits behind what is buffered.
    method Append(piece: seq<Byte>)
      requires Valid() && used + |piece| <= buffer.Length
      modifies this`used, this`sent, buffer
      ensures Valid() && sent == old(sent) + piece && used == old(used) + |piece|
    {
      ghost var before := buffer[..used];
      forall k | 0 <= k < |piece| { buffer[used + k] := piece[k]; }
      assert buffer[..used + |piece|] == before + piece;
      used := used + |piece|;
      sent := sent + piece;
    }

    method PutString(data: seq<Byte>)
      requires Valid()
      modifies this, kernel, buffer
      ensures Valid() && sent == old(sent) + data
    {
      var done := 0;
      while done < |data|
        invariant done <= |data| && Valid() && sent == old(sent) + data[..done]
      {
        var chunk := PutChunk(data[done..]);
        SentSoFar(old(sent), data, done, chunk);
        done := done + chunk;
      }
    }

    // One round of the loop of PutString, with what remains of the string.
    method PutChunk(rest: seq<Byte>) returns (chunk: nat)
      requires Valid() && rest != []
      modifies this, kernel, buffer
      ensures Valid() && 0 < chunk <= |rest| && sent == old(sent) + rest[..chunk]
    {
      var space := buffer.Length - used;
      if space == 0 {
        Flush();
        space := buffer.Length;
      }
      chunk := if |rest| < space then |rest| else space;
      Append(rest[..chunk]);
    }
  }

  lemma SentSoFar(sent: seq<Byte>, data: seq<Byte>, done: nat, chunk: nat)
    requires done + chunk <= |data|
    ensures sent + data[..done] + data[done..][..chunk] == sent + data[..done + chunk]
  {
  }

  // ----- lines -----

  // The length of the first line of a stream, without its newline.
  function LineLength(p: seq<Byte>): (n: nat)
    ensures n <= |p|
  {
    if p == [] || p[0] == NEWLINE then 0 else 1 + LineLength(p[1..])
  }

  function Line(p: seq<Byte>): seq<Byte> { p[..LineLength(p)] }

  function AfterLine(p: seq<Byte>): seq<Byte> {
    if LineLength(p) < |p| then p[LineLength(p) + 1..] else []
  }

  lemma {:induction false} LineStops(p: seq<Byte>)
    ensures forall i :: 0 <= i < LineLength(p) ==> p[i] != NEWLINE
    ensures LineLength(p) < |p| ==> p[LineLength(p)] == NEWLINE
  {
    if p != [] && p[0] != NEWLINE {
      LineStops(p[1..]);
      forall i | 0 <= i < LineLength(p) ensures p[i] != NEWLINE {
        assert i > 0 ==> p[i] == p[1..][i - 1];
      }
    }
  }

  // The first line has no newline, and with its newline and what comes after it makes up the stream.
  lemma LineSplits(p: seq<Byte>)
    ensures NEWLINE !in Line(p)
    ensures p == if LineLength(p) < |p| then Line(p) + [NEWLINE] + AfterLine(p) else Line(p)
  {
    LineStops(p);
    SplitAt(p, LineLength(p), NEWLINE);
  }

  lemma SplitAt(p: seq<Byte>, n: nat, x: Byte)
    requires n <= |p| && (n < |p| ==> p[n] == x) && forall i :: 0 <= i < n ==> p[i] != x
    ensures x !in p[..n] && p == if n < |p| then p[..n] + [x] + p[n + 1..] else p[..n]
  {
  }

  function Lines(p: seq<Byte>): seq<seq<Byte>>
    decreases |p|
  {
    if p == [] then [] else [Line(p)] + Lines(AfterLine(p))
  }

  // Lines, each ended by a newline.
  function Joined(lines: seq<seq<Byte>>): seq<Byte> {
    if lines == [] then [] else lines[0] + [NEWLINE] + Joined(lines[1..])
  }

  lemma FirstOfLines(p: seq<Byte>)
    requires p != []
    ensures Lines(p) != [] && Lines(p)[0] == Line(p) && Lines(p)[1..] == Lines(AfterLine(p)) && |AfterLine(p)| < |p|
  {
  }

  // The lines are the stream cut at its newlines, the last of which may be missing.
  lemma {:induction false} LinesAreTheStream(p: seq<Byte>)
    ensures forall i :: 0 <= i < |Lines(p)| ==> NEWLINE !in Lines(p)[i]
    ensures Joined(Lines(p)) == if p == [] || p[|p| - 1] == NEWLINE then p else p + [NEWLINE]
    decreases |p|
  {
    hide Lines, Line, AfterLine, LineLength;
    if p == [] {
      NoLines();
    } else {
      FirstOfLines(p);
      LineSplits(p);
      LastOfLine(p);
      LinesAreTheStream(AfterLine(p));
      forall i | 0 <= i < |Lines(p)| ensures NEWLINE !in Lines(p)[i] {
        assert i > 0 ==> Lines(p)[i] == Lines(p)[1..][i - 1];
      }
    }
  }

  lemma NoLines()
    ensures Lines([]) == []
  {
  }

  // The first line is all of the stream, or the rest of the stream ends as the stream does.
  lemma LastOfLine(p: seq<Byte>)
    requires p != []
    ensures LineLength(p) == |p| ==> AfterLine(p) == [] && p[|p| - 1] != NEWLINE
    ensures LineLength(p) < |p| && AfterLine(p) == [] ==> p[|p| - 1] == NEWLINE
    ensures AfterLine(p) != [] ==> LineLength(p) < |p| && p[|p| - 1] == AfterLine(p)[|AfterLine(p)| - 1]
  {
    LineStops(p);
  }

  // ----- the reader -----

  // Why a line was left.
  datatype Stop = Full | AtNewline | AtEnd

  // lc_bytes_copy between two buffers.
  method CopyPiece(src: array<Byte>, from: nat, dst: array<Byte>, to: nat, n: nat)
    requires from + n <= src.Length && to + n <= dst.Length && src != dst
    modifies dst
    ensures dst[..to + n] == old(dst[..to]) + src[from..from + n]
  {
    forall k | 0 <= k < n { dst[to + k] := src[from + k]; }
  }

  lemma JoinChunk(all: seq<Byte>, total: nat, chunk: nat)
    requires total + chunk <= |all|
    ensures all[..total] + all[total..][..chunk] == all[..total + chunk]
    ensures all[total..][chunk..] == all[total + chunk..]
  {
  }

  // Taking n bytes out of the buffer takes them off the front of what is pending.
  lemma SplitPending(buffer: seq<Byte>, position: nat, filled: nat, input: seq<Byte>, n: nat)
    requires position + n <= filled <= |buffer|
    ensures (buffer[position..filled] + input)[..n] == buffer[position..position + n]
    ensures (buffer[position..filled] + input)[n..] == buffer[position + n..filled] + input
  {
  }

  class Reader {
    const kernel: Kernel
    const buffer: array<Byte>
    var filled: nat
    var position: nat
    var endOfFile: bool

    ghost predicate Valid()
      reads this, kernel, buffer
    {
      && buffer.Length >= 1 && position <= filled <= buffer.Length && Clean(kernel.script)
      && (endOfFile ==> position == filled && kernel.input == [])
    }

    // What has not been read yet.
    ghost function Pending(): seq<Byte>
      requires position <= filled <= buffer.Length
      reads this, kernel, buffer
    {
      buffer[position..filled] + kernel.input
    }

    constructor (kernel: Kernel, capacity: nat)
      requires capacity >= 1 && Clean(kernel.script)
      ensures Valid() && fresh(buffer) && this.kernel == kernel && Pending() == kernel.input
    {
      this.kernel, filled, position, endOfFile := kernel, 0, 0, false;
      buffer := new Byte[capacity](_ => 0);
    }

    // reader_refill, when the buffer is used up.
    method Refill()
      requires Valid() && position == filled
      modifies this, kernel, buffer
      ensures Valid() && Pending() == old(Pending())
      ensures if old(Pending()) == [] then endOfFile else !endOfFile && position < filled
    {
      if endOfFile { return; }
      position, filled := 0, 0;
      var ret := kernel.ReadRetry(buffer, buffer.Length);
      if ret <= 0 {
        endOfFile := true;
      } else {
        filled := ret;
      }
    }

    method ReadByte() returns (b: int)
      requires Valid()
      modifies this, kernel, buffer
      ensures Valid()
      ensures old(Pending()) == [] ==> b == -1 && Pending() == []
      ensures old(Pending()) != [] ==> b == old(Pending())[0] && Pending() == old(Pending())[1..]
    {
      if position >= filled {
        Refill();
        if endOfFile { return -1; }
      }
      b := buffer[position];
      position := position + 1;
    }

    // Copies a piece of the buffer behind the first `total` bytes of dst.
    method TakeChunk(dst: array<Byte>, total: nat, chunk: nat)
      requires Valid() && !endOfFile && position + chunk <= filled && total + chunk <= dst.Length && dst != buffer
      modifies this`position, dst
      ensures Valid() && chunk <= |old(Pending())|
      ensures dst[..total + chunk] == old(dst[..total]) + old(Pending())[..chunk]
      ensures Pending() == old(Pending())[chunk..]
    {
      SplitPending(buffer[..], position, filled, kernel.input, chunk);
      CopyPiece(buffer, position, dst, total, chunk);
      position := position + chunk;
    }

    method ReadBytes(dst: array<Byte>, count: nat) returns (total: nat)
      requires Valid() && count <= dst.Length && dst != buffer
      modifies this, kernel, buffer, dst
      ensures Valid() && total == Min(count, |old(Pending())|)
      ensures dst[..total] == old(Pending())[..total] && Pending() == old(Pending())[total..]
    {
      total := 0;
      ghost var all := Pending();
      while total < count
        invariant Valid() && total <= count && total <= |all|
        invariant dst[..total] == all[..total] && Pending() == all[total..]
      {
        var chunk := ReadChunk(dst, total, count - total);
        if chunk == 0 { break; }
        JoinChunk(all, total, chunk);
        total := total + chunk;
      }
    }

    // One round of the loop of ReadBytes; nothing is copied exactly when nothing is left.
    method ReadChunk(dst: array<Byte>, total: nat, want: nat) returns (chunk: nat)
      requires Valid() && 0 < want && total + want <= dst.Length && dst != buffer
      modifies this, kernel, buffer, dst
      ensures Valid() && chunk <= want && chunk <= |old(Pending())| && (chunk == 0 <==> old(Pending()) == [])
      ensures dst[..total + chunk] == old(dst[..total]) + old(Pending())[..chunk]
      ensures Pending() == old(Pending())[chunk..]
    {
      if position >= filled {
        Refill();
        if endOfFile { return 0; }
      }
      var available := filled - position;
      chunk := if want < available then want else available;
      TakeChunk(dst, total, chunk);
    }

    // Skips to the end of the line.
    method SkipLine()
      requires Valid()
      modifies this, kernel, buffer
      ensures Valid() && Pending() == AfterLine(old(Pending()))
    {
      while true
        invariant Valid() && AfterLine(Pending()) == AfterLine(old(Pending()))
        decreases |Pending()|
      {
        var b := ReadByte();
        if b < 0 || b == NEWLINE { break; }
      }
    }

    // The loop of lc_reader_read_line: text up to a newline, the end or `max` bytes.
    method ReadText(buf: array<Byte>, max: nat) returns (length: nat, stop: Stop)
      requires Valid() && buf != buffer && max < buf.Length
      modifies this, kernel, buffer, buf
      ensures Valid() && length <= max && length <= |old(Pending())| && buf[..length] == old(Pending())[..length]
      ensures if stop == Full then length == max <= LineLength(old(Pending())) && Pending() == old(Pending())[length..]
              else length == LineLength(old(Pending())) < max && Pending() == AfterLine(old(Pending()))
      ensures stop != Full ==> (stop == AtEnd <==> length == |old(Pending())|)
    {
      length, stop := 0, Full;
      ghost var all := Pending();
      while length < max
        invariant Valid() && length <= max && length <= LineLength(all)
        invariant buf[..length] == all[..length] && Pending() == all[length..]
      {
        NextOfLine(all, length);
        var b := ReadByte();
        if b < 0 { return length, AtEnd; }
        if b == NEWLINE { return length, AtNewline; }
        buf[length] := b;
        length := length + 1;
      }
    }

    // The result is -1 exactly when there is no room at all, or room for text and nothing left to read; a
    // buffer with room for the terminator only gives an empty text even at the end.
    method ReadLine(buf: array<Byte>) returns (r: int)
      requires Valid() && buf != buffer
      modifies this, kernel, buffer, buf
      ensures Valid()
      ensures r == -1 <==> buf.Length == 0 || (buf.Length >= 2 && old(Pending()) == [])
      ensures Pending() == if buf.Length == 0 then old(Pending()) else AfterLine(old(Pending()))
      ensures r != -1 ==> r == Min(LineLength(old(Pending())), buf.Length - 1)
      ensures r != -1 ==> buf[..r] == old(Pending())[..r] && buf[r] == 0
      ensures r == -1 && buf.Length > 0 ==> buf[0] == 0
    {
      if buf.Length == 0 { return -1; }
      var max := buf.Length - 1;
      ghost var all := Pending();
      var length, stop := ReadText(buf, max);
      if stop == AtEnd && length == 0 {
        buf[0] := 0;
        return -1;
      }
      if length == max {
        LineFrom(all, length);
        SkipLine();
      }
      buf[length] := 0;
      return length;
    }
  }

  // Behind the first k bytes of a line, the rest of the line goes on.
  lemma {:induction false} LineFrom(p: seq<Byte>, k: nat)
    requires k <= LineLength(p)
    ensures LineLength(p) == k + LineLength(p[k..]) && AfterLine(p) == AfterLine(p[k..])
  {
    if k > 0 {
      LineFrom(p[1..], k - 1);
      assert p[1..][k - 1..] == p[k..];
    } else {
      assert p[0..] == p;
    }
  }

  // What the next byte says about the line.
  lemma NextOfLine(p: seq<Byte>, k: nat)
    requires k <= LineLength(p)
    ensures k == |p| ==> LineLength(p) == k && AfterLine(p) == []
    ensures k < |p| && p[k] == NEWLINE ==> LineLength(p) == k && AfterLine(p) == p[k + 1..]
    ensures k < |p| && p[k] != NEWLINE ==> k + 1 <= LineLength(p)
  {
    LineFrom(p, k);
  }

  // At the end of the stream a buffer of one byte gets an empty line, and not -1.
  method ReadLineIntoOneByte(reader: Reader, buf: array<Byte>) returns (r: int)
    requires reader.Valid() && buf != reader.buffer && buf.Length == 1 && reader.Pending() == []
    modifies reader, reader.kernel, reader.buffer, buf
    ensures reader.Valid() && r == 0 && buf[0] == 0
  {
    r := reader.ReadLine(buf);
  }

  // ----- reading to the end -----

  function Truncated(lines: seq<seq<Byte>>, most: nat): seq<seq<Byte>> {
    if lines == [] then [] else [lines[0][..Min(|lines[0]|, most)]] + Truncated(lines[1..], most)
  }

  lemma {:induction false} TruncatedAt(lines: seq<seq<Byte>>, most: nat, i: nat)
    requires i < |lines|
    ensures |Truncated(lines, most)| == |lines|
    ensures |Truncated(lines, most)[i]| == Min(|lines[i]|, most) && Truncated(lines, most)[i] <= lines[i]
  {
    if |lines| > 1 { TruncatedAt(lines[1..], most, if i > 0 then i - 1 else 0); }
  }

  lemma FirstLine(p: seq<Byte>, most: nat)
    requires p != []
    ensures Truncated(Lines(p), most) == [p[..Min(LineLength(p), most)]] + Truncated(Lines(AfterLine(p)), most)
  {
    assert Lines(p)[0] == Line(p) && Lines(p)[1..] == Lines(AfterLine(p));
    assert Line(p)[..Min(|Line(p)|, most)] == p[..Min(LineLength(p), most)];
  }

  // Calling lc_reader_read_line until it returns -1 gives the lines of the stream, each cut to what the buffer holds.
  method ReadLines(reader: Reader, buf: array<Byte>) returns (lines: seq<seq<Byte>>)
    requires reader.Valid() && buf != reader.buffer && buf.Length >= 2
    modifies reader, reader.kernel, reader.buffer, buf
    ensures reader.Valid() && lines == Truncated(Lines(old(reader.Pending())), buf.Length - 1)
  {
    lines := [];
    var most := buf.Length - 1;
    ghost var all := Truncated(Lines(reader.Pending()), most);
    while true
      invariant reader.Valid() && all == lines + Truncated(Lines(reader.Pending()), most)
      decreases |reader.Pending()|
    {
      ghost var p := reader.Pending();
      var r := reader.ReadLine(buf);
      if r == -1 { break; }
      FirstLine(p, most);
      Regroup(all, lines, buf[..r], Truncated(Lines(AfterLine(p)), most));
      lines := lines + [buf[..r]];
    }
  }

  lemma Regroup(all: seq<seq<Byte>>, lines: seq<seq<Byte>>, line: seq<Byte>, rest: seq<seq<Byte>>)
    requires all == lines + ([line] + rest)
    ensures all == lines + [line] + rest
  {
  }
}
