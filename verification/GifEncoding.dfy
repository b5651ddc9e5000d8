// Writing a GIF image: bits to bytes, bytes to blocks, and that decoding
// gives the text back.
module GifEncoding {
  import opened Bits
  import opened BitWriter
  import opened Lzw
  import opened LzwCoding
  import opened Gif

  function Pack(bits: BitList): (data: seq<Byte>)
    ensures |bits| <= 8 * |data|
  {
    if bits == [] then []
    else
      var n := if |bits| < 8 then |bits| else 8;
      ByteBound(bits[..n]);
      [ValueOf(bits[..n])] + Pack(bits[n..])
  }

  lemma ByteBound(bits: BitList)
    requires |bits| <= 8
    ensures ValueOf(bits) < 256
  {
    ValueBound(bits);
    Pow2Monotone(|bits|, 8);
    Pow2Small();
  }

  lemma {:induction false} ValueBound(bits: BitList)
    ensures ValueOf(bits) < Pow2(|bits|)
  {
    if bits != [] {
      ValueBound(bits[1..]);
    }
  }

  lemma {:induction false} BitOfValue(bits: BitList, i: nat)
    ensures Shr(ValueOf(bits), i) % 2 == if i < |bits| then bits[i] else 0
    decreases i
  {
    if bits == [] {
      ShrZero(i);
    } else if i > 0 {
      BitOfValue(bits[1..], i - 1);
    }
  }

  lemma {:induction false} BitOfPack(bits: BitList, k: nat)
    requires k < |bits|
    ensures Bit(Pack(bits), k) == bits[k]
  {
    var n := if |bits| < 8 then |bits| else 8;
    ByteBound(bits[..n]);
    if k < 8 {
      BitOfValue(bits[..n], k);
    } else {
      BitOfPack(bits[n..], k - 8);
      assert Pack(bits)[1..] == Pack(bits[n..]);
      BitOfTail(Pack(bits), k);
    }
  }

  lemma BitOfTail(data: seq<Byte>, k: nat)
    requires k >= 8 && data != []
    ensures Bit(data, k) == Bit(data[1..], k - 8)
  {
    assert (k - 8) / 8 == k / 8 - 1 && (k - 8) % 8 == k % 8;
  }

  // Blocks of at most 255 bytes, each after its length, and an empty one.
  function Chain(data: seq<Byte>): seq<Byte>
    decreases |data|
  {
    if data == [] then [0]
    else
      var n := if |data| < 255 then |data| else 255;
      [n] + data[..n] + Chain(data[n..])
  }

  // Reading a block: its bytes, then what follows it.
  lemma {:induction false} PayloadOfBlock(pre: seq<Byte>, block: seq<Byte>, post: seq<Byte>)
    ensures Payload(pre + block + post, |pre|, |block|) == block + Payload(pre + block + post, |pre| + |block|, 0)
    decreases |block|
  {
    if block != [] {
      var input := pre + block + post;
      assert input == (pre + block[..1]) + block[1..] + post;
      PayloadOfBlock(pre + block[..1], block[1..], post);
      assert input[|pre|] == block[0];
    }
  }

  lemma {:induction false} PayloadOfChain(pre: seq<Byte>, data: seq<Byte>, post: seq<Byte>)
    ensures Payload(pre + Chain(data) + post, |pre|, 0) == data
    decreases |data|
  {
    var input := pre + Chain(data) + post;
    if data == [] {
      assert input[|pre|] == 0;
    } else {
      var n := if |data| < 255 then |data| else 255;
      var block, rest := data[..n], Chain(data[n..]);
      assert input == (pre + [n]) + block + (rest + post);
      assert input[|pre|] == n;
      PayloadOfBlock(pre + [n], block, rest + post);
      assert input == (pre + [n] + block) + rest + post;
      PayloadOfChain(pre + [n] + block, data[n..], post);
    }
  }

  // An image of symbols that fit the code size, whatever follows it.
  function EncodeImage(minSize: nat, d: Str): seq<Byte>
    requires 2 <= minSize <= 8 && Symbols(Pow2(minSize), d)
  {
    [minSize] + Chain(Pack(Encode(minSize, d)))
  }

  // Decoding an encoded image gives its symbols back.
  lemma ImageRoundTrip(minSize: nat, d: Str, post: seq<Byte>)
    requires 2 <= minSize <= 8 && Symbols(Pow2(minSize), d)
    ensures Meaning(EncodeImage(minSize, d) + post) == Done(d)
  {
    hide Chain, Pack, Payload, Encode, Decode;
    var bits := Encode(minSize, d);
    var data := Pack(bits);
    PayloadOfChain([minSize], data, post);
    assert EncodeImage(minSize, d) + post == [minSize] + Chain(data) + post;
    forall k | 0 <= k < |bits|
      ensures BitsOf(data)(0 + k) == bits[k]
    {
      BitOfPack(bits, k);
    }
    RoundTrip(minSize, d, BitsOf(data), 0, 8 * |data|);
  }
}
