/** Bytes, C strings and sequences of blocks, shared by the server and the client model. */
module Buffers {

  /** One octet of a socket buffer or a file. */
  newtype byte = b: int | 0 <= b < 256

  /** The C string terminator. */
  const NUL: byte := 0

  datatype Option<+T> = None | Some(value: T)

  /** A C string as the program sees it: characters that are single bytes, none of them NUL. */
  predicate IsCString(s: string)
  {
    forall i :: 0 <= i < |s| ==> 0 < s[i] as int < 256
  }

  /** The characters a byte buffer spells. */
  function ToChars(b: seq<byte>): (s: string)
    ensures |s| == |b|
    ensures forall i :: 0 <= i < |b| ==> s[i] as int == b[i] as int
  {
    seq(|b|, i requires 0 <= i < |b| => (b[i] as int) as char)
  }

  /** The bytes of a C string, without its terminator. */
  function ToBytes(s: string): (b: seq<byte>)
    requires IsCString(s)
    ensures |b| == |s|
    ensures forall i :: 0 <= i < |s| ==> b[i] as int == s[i] as int && b[i] != NUL
  {
    seq(|s|, i requires 0 <= i < |s| => s[i] as int as byte)
  }

  lemma CharsOfBytes(s: string)
    requires IsCString(s)
    ensures ToChars(ToBytes(s)) == s
  {
  }

  /** The bytes of a sequence of blocks, in order. */
  function Concat(blocks: seq<seq<byte>>): seq<byte>
  {
    if blocks == [] then [] else Concat(blocks[..|blocks| - 1]) + blocks[|blocks| - 1]
  }

  /** The sum of the lengths of a sequence of blocks. */
  function TotalLength(blocks: seq<seq<byte>>): nat
  {
    if blocks == [] then 0 else TotalLength(blocks[..|blocks| - 1]) + |blocks[|blocks| - 1]|
  }

  lemma ConcatSnoc(blocks: seq<seq<byte>>, b: seq<byte>)
    ensures Concat(blocks + [b]) == Concat(blocks) + b
    ensures TotalLength(blocks + [b]) == TotalLength(blocks) + |b|
  {
    assert (blocks + [b])[..|blocks|] == blocks;
  }

  /** Concatenation also takes blocks off the front. */
  lemma {:induction false} ConcatCons(b: seq<byte>, blocks: seq<seq<byte>>)
    ensures Concat([b] + blocks) == b + Concat(blocks)
  {
    if blocks == [] {
      assert [b] + blocks == [] + [b];
      ConcatSnoc([], b);
    } else {
      var init, last := blocks[..|blocks| - 1], blocks[|blocks| - 1];
      assert blocks == init + [last];
      assert [b] + blocks == ([b] + init) + [last];
      ConcatCons(b, init);
      ConcatSnoc([b] + init, last);
      ConcatSnoc(init, last);
    }
  }

  /** The number of bytes in a concatenation is the sum of the block lengths. */
  lemma {:induction false} ConcatLength(blocks: seq<seq<byte>>)
    ensures |Concat(blocks)| == TotalLength(blocks)
  {
    if blocks != [] {
      ConcatLength(blocks[..|blocks| - 1]);
    }
  }
}
