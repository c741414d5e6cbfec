/** Call sequences on a fresh stream, as the runtime's own tests make them,
    with what the code does for each. Where the tests expect something else
    (they were written against a later version of the class), the contract
    states what this code does. */
module StreamScenarios {
  import opened Wrappers
  import opened Php
  import opened StreamErrors
  import opened KaitaiStream

  /** `readBytesFull` drains the stream: a second call right after the first
      returns nothing. */
  method ReadBytesFullTwice(bytes: seq<byte>, start: int) returns (first: seq<byte>, second: seq<byte>)
    requires 0 <= start < |bytes|
    ensures first == bytes[start..] && second == []
  {
    var s := new Stream(bytes);
    var _ := s.Seek(start);
    first := s.ReadBytesFull();
    second := s.ReadBytesFull();
  }

  /** Consecutive `readBytes` calls return consecutive slices. */
  method ReadBytesConsecutively(bytes: seq<byte>, n: nat, m: nat) returns (a: seq<byte>, b: seq<byte>)
    requires n + m <= |bytes|
    ensures a + b == bytes[..n + m]
    ensures |a| == n && |b| == m
  {
    var s := new Stream(bytes);
    a := s.ReadBytes(n);
    b := s.ReadBytes(m);
  }

  /** Seeking to each offset in turn and reading one signed byte decodes
      every byte of the source as a two's-complement value. */
  method ReadEachS1(bytes: seq<byte>) returns (values: seq<int>)
    ensures |values| == |bytes|
    ensures forall i :: 0 <= i < |bytes| ==>
      -128 <= values[i] < 128 && (if bytes[i] < 0x80 then values[i] == bytes[i] as int
                                  else values[i] == bytes[i] as int - 256)
  {
    var s := new Stream(bytes);
    values := [];
    var i := 0;
    while i < |bytes|
      invariant 0 <= i <= |bytes|
      invariant s.data == bytes && s.Valid()
      invariant |values| == i
      invariant forall j :: 0 <= j < i ==>
        -128 <= values[j] < 128 && (if bytes[j] < 0x80 then values[j] == bytes[j] as int
                                    else values[j] == bytes[j] as int - 256)
    {
      var _ := s.Seek(i);
      var r := s.ReadS1();
      var v := r.value;
      assert Pow256(1) == 256;
      values := values + [v];
      i := i + 1;
    }
  }

  /** The five bytes of "<?php" match the first time; the second call finds
      the stream exhausted, reads nothing, and reports a mismatch. */
  method EnsureFixedContentsTwice() returns (first: Result<seq<byte>, Error>, second: Result<seq<byte>, Error>)
    ensures first == Success([0x3c, 0x3f, 0x70, 0x68, 0x70])
    ensures second == Failure(UnexpectedContents([0x3c, 0x3f, 0x70, 0x68, 0x70], []))
  {
    var php: seq<byte> := [0x3c, 0x3f, 0x70, 0x68, 0x70];
    var s := new Stream(php);
    first := s.EnsureFixedContents(5, php);
    second := s.EnsureFixedContents(5, php);
  }

  /** Seeking to the size itself is refused, and the cursor stays put. */
  method SeekToSize(bytes: seq<byte>) returns (r: Outcome<Error>, eof: bool)
    ensures r == Fail(PositionNotBelowSize(|bytes|, |bytes|))
    ensures eof <==> |bytes| == 0
  {
    var s := new Stream(bytes);
    r := s.Seek(|bytes|);
    eof := s.IsEof();
  }
}
