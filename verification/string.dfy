/**
 * The length-plus-buffer string value type `UserDefined::String` of
 * Challenge-1/Task-1/String.hpp.
 *
 * A string owns a character array whose first `length` cells are its
 * characters and whose cell `length` holds a NUL. A string whose buffer was
 * moved away has no buffer at all (`data == null`) and length 0.
 */
module UserDefined {

  /** What `strlen` returns for a NUL-terminated buffer: the index of its first NUL. */
  function StrLen(buf: seq<char>): (n: nat)
    requires '\0' in buf
    ensures n < |buf| && buf[n] == '\0'
    ensures forall i :: 0 <= i < n ==> buf[i] != '\0'
  {
    if buf[0] == '\0' then 0 else StrLen(buf[1..]) + 1
  }

  /** A string with no NUL inside, followed by a NUL, measures its own length. */
  lemma {:induction false} StrLenOfTerminated(s: seq<char>, tail: seq<char>)
    requires forall i :: 0 <= i < |s| ==> s[i] != '\0'
    ensures StrLen(s + ['\0'] + tail) == |s|
  {
    if s != [] {
      assert (s + ['\0'] + tail)[1..] == s[1..] + ['\0'] + tail;
      StrLenOfTerminated(s[1..], tail);
    }
  }

  /** Number of characters before the first newline (all of them when there is none). */
  function LineEnd(input: seq<char>): (n: nat)
    ensures n <= |input|
    ensures forall i :: 0 <= i < n ==> input[i] != '\n'
    ensures n < |input| ==> input[n] == '\n'
  {
    if input == [] || input[0] == '\n' then 0 else LineEnd(input[1..]) + 1
  }

  /** A line followed by a newline is read back exactly. */
  lemma {:induction false} LineEndOfLine(line: seq<char>, rest: seq<char>)
    requires forall i :: 0 <= i < |line| ==> line[i] != '\n'
    ensures LineEnd(line + ['\n'] + rest) == |line|
  {
    if line != [] {
      assert (line + ['\n'] + rest)[1..] == line[1..] + ['\n'] + rest;
      LineEndOfLine(line[1..], rest);
    }
  }

  function Pow2(k: nat): (p: nat)
    ensures p >= 1
  {
    if k == 0 then 1 else 2 * Pow2(k - 1)
  }

  /** `std::copy` of `src` into `dst` starting at index `at`. */
  method CopyChars(src: seq<char>, dst: array<char>, at: nat)
    requires at + |src| <= dst.Length
    modifies dst
    ensures dst[at..at + |src|] == src
    ensures dst[..at] == old(dst[..at])
    ensures dst[at + |src|..] == old(dst[at + |src|..])
  {
    for i := 0 to |src|
      invariant dst[at..at + i] == src[..i]
      invariant dst[..at] == old(dst[..at])
      invariant dst[at + i..] == old(dst[at + i..])
    {
      dst[at + i] := src[i];
      assert dst[at..at + i + 1] == dst[at..at + i] + [src[i]];
    }
  }

  /** A fresh buffer holding `s` followed by a NUL: `new char[n + 1]`, `std::copy` and the terminator. */
  method Terminated(s: seq<char>) returns (buf: array<char>)
    ensures fresh(buf) && buf.Length == |s| + 1
    ensures buf[..|s|] == s && buf[|s|] == '\0'
  {
    buf := new char[|s| + 1];
    CopyChars(s, buf, 0);
    buf[|s|] := '\0';
  }

  /** The buffer of `operator+`: `a`, then `b` copied in after it, then a NUL. */
  method JoinTerminated(a: seq<char>, b: seq<char>) returns (buf: array<char>)
    ensures fresh(buf) && buf.Length == |a| + |b| + 1
    ensures buf[..|a| + |b|] == a + b && buf[|a| + |b|] == '\0'
  {
    var n := |a| + |b|;
    buf := new char[n + 1];
    CopyChars(a, buf, 0);
    CopyChars(b, buf, |a|);
    buf[n] := '\0';
    assert buf[..n] == buf[0..|a|] + buf[|a|..|a| + |b|];
  }

  /** The growth step of `operator>>`: a buffer twice as large holding the first `len` characters. */
  method Grow(buffer: array<char>, len: nat) returns (larger: array<char>)
    requires len <= buffer.Length
    ensures fresh(larger) && larger.Length == 2 * buffer.Length
    ensures larger[..len] == buffer[..len]
  {
    larger := new char[2 * buffer.Length];
    CopyChars(buffer[..len], larger, 0);
  }

  /**
   * The loop of `operator>>`: copies characters of `input` up to the first
   * newline into a buffer that starts at 16 cells and doubles whenever only
   * one free cell is left. Returns the buffer and the number of characters read.
   */
  method ReadBuffer(input: seq<char>) returns (buffer: array<char>, len: nat)
    ensures fresh(buffer) && len == LineEnd(input) && len < buffer.Length
    ensures buffer[..len] == input[..len]
    ensures exists k :: buffer.Length == 16 * Pow2(k)
    ensures buffer.Length == 16 || buffer.Length <= 2 * len
  {
    len := 0;
    var capacity := 16;
    buffer := new char[capacity];
    ghost var k := 0;
    while len < |input| && input[len] != '\n'
      invariant len <= |input|
      invariant forall i :: 0 <= i < len ==> input[i] != '\n'
      invariant fresh(buffer) && buffer.Length == capacity
      invariant capacity == 16 * Pow2(k)
      invariant len < capacity
      invariant capacity == 16 || capacity <= 2 * len
      invariant buffer[..len] == input[..len]
    {
      if len == capacity - 1 {
        buffer := Grow(buffer, len);
        capacity := capacity * 2;
        k := k + 1;
      }
      buffer[len] := input[len];
      len := len + 1;
      assert buffer[..len] == buffer[..len - 1] + [input[len - 1]];
      assert input[..len] == input[..len - 1] + [input[len - 1]];
    }
  }

  class String {
    var length: nat
    var data: array?<char>

    /** The buffer holds `length` characters and then a NUL; a moved-from string has none. */
    ghost predicate Valid()
      reads this, data
    {
      if data == null then length == 0 else length < data.Length && data[length] == '\0'
    }

    /** The characters of the string. */
    function Contents(): (s: seq<char>)
      reads this, data
      requires Valid()
      ensures |s| == length
    {
      if data == null then [] else data[..length]
    }

    /** `String()`: the empty string in a one-cell buffer holding NUL. */
    constructor ()
      ensures Valid() && Contents() == []
      ensures fresh(data) && data.Length == 1 && data[0] == '\0'
    {
      length := 0;
      var buf := new char[1];
      buf[0] := '\0';
      data := buf;
    }

    /** `String(const char*)`: the characters of a NUL-terminated buffer up to its first NUL. */
    constructor FromCString(input: seq<char>)
      requires '\0' in input
      ensures Valid() && length == StrLen(input) && Contents() == input[..StrLen(input)]
      ensures fresh(data) && data.Length == length + 1
    {
      var n := StrLen(input);
      var buf := Terminated(input[..n]);
      length := n;
      data := buf;
    }

    /** `String(const std::vector<char>&)`: every character of the vector, NULs included. */
    constructor FromVector(input: seq<char>)
      ensures Valid() && length == |input| && Contents() == input
      ensures fresh(data) && data.Length == length + 1
    {
      var buf := Terminated(input);
      length := |input|;
      data := buf;
    }

    /** Copy constructor: the same characters in a buffer of its own. */
    constructor Copy(source: String)
      requires source.Valid()
      ensures Valid() && Contents() == source.Contents()
      ensures fresh(data) && data.Length == length + 1
    {
      var buf := Terminated(source.Contents());
      length := source.length;
      data := buf;
    }

    /** Move constructor: takes over the source's buffer and leaves the source empty and bufferless. */
    constructor Move(source: String)
      requires source.Valid()
      modifies source
      ensures Valid() && length == old(source.length) && data == old(source.data)
      ensures Contents() == old(source.Contents())
      ensures source.Valid() && source.length == 0 && source.data == null
    {
      length := source.length;
      data := source.data;
      new;
      source.length := 0;
      source.data := null;
    }

    /** Copy assignment; assigning a string to itself changes nothing. */
    method CopyAssign(source: String)
      requires Valid() && source.Valid()
      modifies this
      ensures Valid() && Contents() == old(source.Contents())
      ensures source.Valid() && source.Contents() == old(source.Contents())
      ensures this != source ==> fresh(data) && data.Length == length + 1
      ensures this == source ==> length == old(length) && data == old(data)
    {
      if this != source {
        var buf := Terminated(source.Contents());
        length := source.length;
        data := buf;
      }
    }

    /** Move assignment; moving a string onto itself changes nothing. */
    method MoveAssign(source: String)
      requires Valid() && source.Valid()
      modifies this, source
      ensures Valid() && source.Valid()
      ensures Contents() == old(source.Contents())
      ensures this != source ==> length == old(source.length) && data == old(source.data)
      ensures this != source ==> source.length == 0 && source.data == null
      ensures this == source ==> length == old(length) && data == old(data)
    {
      if this != source {
        data := source.data;
        length := source.length;
        source.length := 0;
        source.data := null;
      }
    }

    /** `operator+`: a new string holding this string's characters followed by `other`'s. */
    method Concat(other: String) returns (r: String)
      requires Valid() && other.Valid()
      ensures fresh(r) && fresh(r.data) && r.Valid()
      ensures r.length == length + other.length
      ensures r.Contents() == Contents() + other.Contents()
      ensures r.data.Length == r.length + 1
    {
      var buf := JoinTerminated(Contents(), other.Contents());
      r := new String();
      r.length := length + other.length;
      r.data := buf;
    }

    /** `operator==`: the same length and the same first `length` characters. */
    function Equals(other: String): (r: bool)
      reads this, data, other, other.data
      requires Valid() && other.Valid()
      ensures r <==> Contents() == other.Contents()
    {
      length == other.length && forall i :: 0 <= i < length ==> data[i] == other.data[i]
    }

    /** `length()`. */
    function Length(): (n: nat)
      reads this, data
      requires Valid()
      ensures n == |Contents()|
    {
      length
    }

    /**
     * `operator>>`: replaces the string with the characters of `input` before
     * the first newline (or all of them), read into a buffer that starts at 16
     * cells and doubles whenever only the NUL's cell is left. Returns what is
     * left of the input after the line and its newline.
     */
    method ReadLine(input: seq<char>) returns (rest: seq<char>)
      modifies this
      ensures Valid() && fresh(data)
      ensures Contents() == input[..LineEnd(input)]
      ensures rest == if LineEnd(input) < |input| then input[LineEnd(input) + 1..] else []
      ensures exists k :: data.Length == 16 * Pow2(k)
      ensures data.Length == 16 || data.Length <= 2 * length
    {
      var buffer, len := ReadBuffer(input);
      buffer[len] := '\0';
      length := len;
      data := buffer;
      rest := if len < |input| then input[len + 1..] else [];
    }
  }

  /** Reading a string back from its own characters and a NUL gives the same characters. */
  lemma CStringRoundTrip(s: seq<char>)
    requires forall i :: 0 <= i < |s| ==> s[i] != '\0'
    ensures StrLen(s + ['\0']) == |s| && (s + ['\0'])[..StrLen(s + ['\0'])] == s
  {
    StrLenOfTerminated(s, []);
    assert s + ['\0'] + [] == s + ['\0'];
  }
}
