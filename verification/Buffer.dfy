/** breUtils/Buffer.hpp: a byte buffer that grows, or moves its content to the front, when it runs out of room. */
module ByteQueue {
  import opened Wrappers
  import opened Texts

  // ---------- the queue that a buffer stands for ----------

  datatype Operation = Append(s: string) | Retrieve(n: nat) | RetrieveUntil(end: string) | RetrieveAll | Clear

  /** What an operation hands back. */
  function Output(contents: string, op: Operation): string {
    match op
    case Append(_) => ""
    case Retrieve(n) => if n <= |contents| then contents[..n] else ""
    case RetrieveUntil(end) =>
      (match Find(contents, end)
       case None => ""
       case Some(pos) => contents[..pos + |end|])
    case RetrieveAll => contents
    case Clear => ""
  }

  /** What an operation leaves. */
  function Left(contents: string, op: Operation): string {
    match op
    case Append(s) => contents + s
    case Retrieve(n) => if n <= |contents| then contents[n..] else contents
    case RetrieveUntil(end) =>
      (match Find(contents, end)
       case None => contents
       case Some(pos) => contents[pos + |end|..])
    case RetrieveAll => ""
    case Clear => ""
  }

  function LeftAfter(contents: string, ops: seq<Operation>): string
    decreases |ops|
  {
    if ops == [] then contents else LeftAfter(Left(contents, ops[0]), ops[1..])
  }

  /** What leaves the queue by an operation, handed back or thrown away. */
  function Removed(contents: string, op: Operation): string {
    if op == Clear then contents else Output(contents, op)
  }

  function RemovedBy(contents: string, ops: seq<Operation>): string
    decreases |ops|
  {
    if ops == [] then "" else Removed(contents, ops[0]) + RemovedBy(Left(contents, ops[0]), ops[1..])
  }

  function Input(op: Operation): string {
    if op.Append? then op.s else ""
  }

  function Inputs(ops: seq<Operation>): string {
    if ops == [] then "" else Input(ops[0]) + Inputs(ops[1..])
  }

  lemma OneOperation(contents: string, op: Operation)
    ensures Removed(contents, op) + Left(contents, op) == contents + Input(op)
  {
    match op {
      case Retrieve(n) =>
        if n <= |contents| {
          assert contents == contents[..n] + contents[n..];
        }
      case RetrieveUntil(end) =>
        if Find(contents, end).Some? {
          var n := Find(contents, end).value + |end|;
          assert contents == contents[..n] + contents[n..];
        }
      case _ =>
    }
  }

  /** Bytes leave in the order in which they came in, none of them lost or made up, over any operations. */
  lemma {:induction false} FirstInFirstOut(contents: string, ops: seq<Operation>)
    ensures RemovedBy(contents, ops) + LeftAfter(contents, ops) == contents + Inputs(ops)
    decreases |ops|
  {
    hide Removed, Left, Input;
    if ops != [] {
      var out, left, rest := Removed(contents, ops[0]), Left(contents, ops[0]), ops[1..];
      OneOperation(contents, ops[0]);
      FirstInFirstOut(left, rest);
      calc {
        out + RemovedBy(left, rest) + LeftAfter(left, rest);
        out + (RemovedBy(left, rest) + LeftAfter(left, rest));
        out + (left + Inputs(rest));
        out + left + Inputs(rest);
        contents + Input(ops[0]) + Inputs(rest);
        contents + (Input(ops[0]) + Inputs(rest));
      }
    }
  }

  /** How much comes out, and how much stays. */
  lemma Lengths(contents: string, op: Operation)
    ensures
      var out, left := Output(contents, op), Left(contents, op);
      match op
      case Append(s) => out == "" && |left| == |contents| + |s|
      case Retrieve(n) =>
        if n <= |contents| then |out| == n && |left| == |contents| - n else out == "" && left == contents
      case RetrieveUntil(_) => |out| + |left| == |contents|
      case RetrieveAll => |out| == |contents| && left == ""
      case Clear => out == "" && left == ""
  {
  }

  predicate EndsWith(s: string, end: string) {
    |end| <= |s| && s[|s| - |end|..] == end
  }

  /** Reading up to a delimiter hands back the shortest beginning that ends with it, or nothing if there is none. */
  lemma UntilIsShortest(contents: string, end: string, n: nat)
    requires n <= |contents| && EndsWith(contents[..n], end)
    ensures
      var out := Output(contents, RetrieveUntil(end));
      out <= contents[..n] && EndsWith(out, end)
  {
    var start := n - |end|;
    assert contents[start..n] == contents[..n][start..];
    assert Has(contents, start, end);
    var pos := Find(contents, end).value;
    assert contents[pos..pos + |end|] == contents[..pos + |end|][pos..];
  }

  lemma UntilIsNothing(contents: string, end: string)
    requires forall n :: 0 <= n <= |contents| ==> !EndsWith(contents[..n], end)
    ensures Output(contents, RetrieveUntil(end)) == "" && Left(contents, RetrieveUntil(end)) == contents
  {
    var pos := Find(contents, end);
    if pos.Some? {
      var n := pos.value + |end|;
      assert contents[pos.value..n] == contents[..n][pos.value..];
      assert EndsWith(contents[..n], end);
    }
  }

  // ---------- the buffer ----------

  /** `std::vector::resize` to a greater size. */
  method Resized(a: array<char>, size: nat) returns (larger: array<char>)
    requires a.Length < size
    ensures fresh(larger) && larger.Length == size && larger[..a.Length] == a[..]
  {
    larger := new char[size](_ => '\0');
    for i := 0 to a.Length
      invariant larger[..i] == a[..i]
    {
      larger[i] := a[i];
    }
  }

  /** `std::copy` to the front of the same array: the ranges may overlap, and ascending order makes that harmless. */
  method MoveToFront(a: array<char>, from: nat, to: nat)
    requires from <= to <= a.Length
    modifies a
    ensures a[..to - from] == old(a[from..to])
  {
    for i := 0 to to - from
      invariant forall k :: 0 <= k < i ==> a[k] == old(a[from + k])
      invariant forall k :: i <= k < a.Length ==> a[k] == old(a[k])
    {
      a[i] := a[from + i];
    }
  }

  /** `std::copy` of a string into the array. */
  method CopyInto(a: array<char>, at: nat, str: string)
    requires at + |str| <= a.Length
    modifies a
    ensures a[..at + |str|] == old(a[..at]) + str
  {
    for i := 0 to |str|
      invariant forall k :: 0 <= k < at ==> a[k] == old(a[k])
      invariant forall k :: 0 <= k < i ==> a[at + k] == str[k]
    {
      a[at + i] := str[i];
    }
  }

  class Buffer {
    var buffer: array<char>
    var readPos: nat
    var writePos: nat

    ghost predicate Valid()
      reads this
    {
      readPos <= writePos <= buffer.Length
    }

    ghost function Contents(): string
      requires Valid()
      reads this, buffer
    {
      buffer[readPos..writePos]
    }

    constructor (initBuffSize: nat)
      ensures Valid() && Contents() == "" && fresh(buffer)
    {
      buffer := new char[initBuffSize](_ => '\0');
      readPos, writePos := 0, 0;
    }

    function WritableBytes(): nat
      requires Valid()
      reads this
    {
      buffer.Length - writePos
    }

    function ReadableBytes(): nat
      requires Valid()
      reads this
    {
      writePos - readPos
    }

    /** Makes room for `len` bytes: in a larger vector if there is not enough of it altogether, else by moving the
        content to the front, byte by byte, the ranges overlapping or not. */
    method ExpandBuffer(len: nat)
      requires Valid()
      modifies this, buffer
      ensures Valid() && (buffer == old(buffer) || fresh(buffer))
      ensures Contents() == old(Contents())
      ensures WritableBytes() >= len
      ensures buffer == old(buffer) <==> old(buffer.Length - |Contents()|) >= len
    {
      if WritableBytes() + readPos < len {
        buffer := Resized(buffer, writePos + len);
      } else {
        var readable := ReadableBytes();
        MoveToFront(buffer, readPos, writePos);
        readPos := 0;
        writePos := readable;
      }
    }

    method Append(str: string)
      requires Valid()
      modifies this, buffer
      ensures Valid() && (buffer == old(buffer) || fresh(buffer))
      ensures Contents() == Left(old(Contents()), Operation.Append(str))
    {
      if WritableBytes() < |str| {
        ExpandBuffer(|str|);
      }
      ghost var end, before := writePos + |str|, buffer[..writePos];
      CopyInto(buffer, writePos, str);
      assert buffer[readPos..end] == (before + str)[readPos..] == before[readPos..] + str;
      writePos := writePos + |str|;
    }

    /** Nothing is handed back, and nothing changes, when there are fewer bytes: the original throws. */
    method Retrieve(len: nat) returns (ret: Option<string>)
      requires Valid()
      modifies this
      ensures Valid() && buffer == old(buffer)
      ensures ret.Some? <==> len <= |old(Contents())|
      ensures ret.Some? ==> ret.value == Output(old(Contents()), Operation.Retrieve(len))
      ensures Contents() == Left(old(Contents()), Operation.Retrieve(len))
    {
      if len > ReadableBytes() {
        return None;
      }
      ret := Some(buffer[readPos..readPos + len]);
      readPos := readPos + len;
    }

    method RetrieveUntil(end: string) returns (ret: string)
      requires Valid()
      modifies this
      ensures Valid() && buffer == old(buffer)
      ensures ret == Output(old(Contents()), Operation.RetrieveUntil(end))
      ensures Contents() == Left(old(Contents()), Operation.RetrieveUntil(end))
    {
      var pos := Find(buffer[readPos..writePos], end);
      if pos.None? {
        return "";
      }
      var r := Retrieve(pos.value + |end|);
      ret := r.value;
    }

    method Clear()
      modifies this
      ensures Valid() && buffer == old(buffer) && Contents() == ""
    {
      readPos, writePos := 0, 0;
    }

    method RetrieveAll() returns (ret: string)
      requires Valid()
      modifies this
      ensures Valid() && buffer == old(buffer)
      ensures ret == Output(old(Contents()), Operation.RetrieveAll)
      ensures Contents() == Left(old(Contents()), Operation.RetrieveAll)
    {
      ret := buffer[readPos..writePos];
      Clear();
    }
  }
}
