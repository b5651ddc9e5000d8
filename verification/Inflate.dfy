// Decoding one compressed DEFLATE block into a growing buffer.
module Inflate {
  import opened Bits
  import opened CanonicalCode
  import opened ZHuffman
  import opened BitReader
  import opened Lz77

  const UINT_MAX := 0xFFFF_FFFF

  // The output: bytes written so far at the front of a buffer that is replaced
  // by one of twice the size when it is full.
  class Output {
    var buf: array<Byte>
    var zout: nat
    const expandable: bool
    // The largest buffer the allocator grants.
    const memory: nat

    ghost predicate Valid()
      reads this
    {
      zout <= buf.Length && 0 < buf.Length <= UINT_MAX
    }

    ghost function Bytes(): (s: seq<Byte>)
      requires Valid()
      reads this, buf
      ensures |s| == zout
    {
      buf[..zout]
    }

    constructor (capacity: nat, canExpand: bool, limit: nat)
      requires 0 < capacity <= UINT_MAX
      ensures Valid() && Bytes() == [] && fresh(buf)
      ensures expandable == canExpand && memory == limit
    {
      buf := new Byte[capacity];
      zout := 0;
      expandable := canExpand;
      memory := limit;
    }

    // The output can always grow to this many bytes.
    ghost function Limit(): nat
      reads this
    {
      var growth := if memory < 0x1_0000_0000 then memory / 2 else 0x8000_0000;
      if expandable && growth > buf.Length then growth else buf.Length
    }

    // Makes room for `n` more bytes.
    method Grow(n: nat) returns (ok: bool)
      requires Valid()
      modifies this`buf
      ensures Valid() && Bytes() == old(Bytes())
      ensures buf.Length >= old(buf.Length) && (buf == old(buf) || fresh(buf))
      ensures ok ==> zout + n <= buf.Length
      ensures !ok ==> zout + n > old(Limit()) || zout + n <= old(buf.Length)
      ensures Limit() >= old(Limit())
    {
      if !expandable {
        return false;
      }
      var cur, limit := zout, buf.Length;
      if UINT_MAX - cur < n {
        return false;
      }
      while cur + n > limit
        invariant buf.Length <= limit <= UINT_MAX
        invariant limit == buf.Length || limit < 2 * (cur + n)
        decreases UINT_MAX - limit
      {
        if limit > UINT_MAX / 2 {
          return false;
        }
        limit := 2 * limit;
      }
      if limit > memory {
        return false;
      }
      var q := new Byte[limit];
      forall i | 0 <= i < zout {
        q[i] := buf[i];
      }
      assert q[..zout] == buf[..zout];
      buf := q;
      ok := true;
    }

    method Put(b: Byte)
      requires Valid() && zout < buf.Length
      modifies this`zout, buf
      ensures Valid() && Bytes() == old(Bytes()) + [b]
    {
      buf[zout] := b;
      zout := zout + 1;
    }

    // Copies `length` bytes from `distance` bytes back, one at a time.
    method CopyMatch(length: nat, distance: nat)
      requires Valid() && 1 <= distance <= zout && zout + length <= buf.Length
      modifies this`zout, buf
      ensures Valid() && Bytes() == CopyBack(old(Bytes()), distance, length)
    {
      hide CopyBack;
      var p := zout - distance;
      ghost var start := Bytes();
      CopyBackSteps(start, distance, 0);
      var left: nat := length;
      if distance == 1 {
        var v := buf[p];
        while left > 0
          invariant left <= length && Valid() && zout + left <= buf.Length
          invariant Bytes() == CopyBack(start, distance, length - left)
          invariant zout >= 1 && buf[zout - 1] == v
          modifies this`zout, buf
        {
          ghost var before := Bytes();
          CopyBackSteps(start, distance, length - left);
          buf[zout] := v;
          zout := zout + 1;
          left := left - 1;
          assert Bytes() == before + [before[|before| - 1]];
        }
      } else {
        while left > 0
          invariant left <= length && Valid() && zout + left <= buf.Length && p == zout - distance
          invariant Bytes() == CopyBack(start, distance, length - left)
          modifies this`zout, buf
        {
          ghost var before := Bytes();
          CopyBackSteps(start, distance, length - left);
          buf[zout] := buf[p];
          zout := zout + 1;
          p := p + 1;
          left := left - 1;
          assert Bytes() == before + [before[|before| - distance]];
        }
      }
    }
  }

  // How one round of decoding ends.
  datatype Outcome = Emitted | Finished | Refused

  class Inflater {
    const reader: Reader
    const output: Output
    const zLength: Tables
    const zDistance: Tables

    // The state while a block with code `c` is decoded.
    ghost predicate Ready(c: BlockCode)
      reads reader, output
      reads zLength.fast, zLength.firstcode, zLength.maxcode, zLength.firstsymbol, zLength.size, zLength.value
      reads zDistance.fast, zDistance.firstcode, zDistance.maxcode, zDistance.firstsymbol
      reads zDistance.size, zDistance.value
    {
      && reader.Valid() && output.Valid() && c.Valid()
      && zLength.Represents(c.ll) && zDistance.Represents(c.dl)
    }

    constructor (input: seq<Byte>, capacity: nat, canExpand: bool, limit: nat)
      requires 0 < capacity <= UINT_MAX
      ensures reader.Valid() && output.Valid() && output.Bytes() == []
      ensures reader.data == input && reader.pos == 0
    {
      reader := new Reader(input);
      output := new Output(capacity, canExpand, limit);
      zLength := new Tables();
      zDistance := new Tables();
    }

    // Decodes one block, appending to the output. The result is what the block
    // means; a block that lies within the input and whose copies reach back no
    // further than the output is refused only for lack of room.
    method ParseBlock(c: BlockCode) returns (ok: bool, ghost tokens: seq<Token>)
      requires Ready(c)
      modifies reader, output, output.buf
      ensures reader.Valid() && output.Valid()
      ensures ok ==>
        && BlockAt(c, reader.stream, old(reader.pos), tokens, reader.pos)
        && Fits(tokens, |old(output.Bytes())|)
        && output.Bytes() == Expand(old(output.Bytes()), tokens)
      ensures !ok ==> forall want, end: nat ::
        BlockAt(c, reader.stream, old(reader.pos), want, end) && Fits(want, |old(output.Bytes())|) ==>
        end > 8 * |reader.data| || |old(output.Bytes())| + Size(want) > old(output.Limit())
    {
      hide Tables.Represents, SearchSymbol, Window, ValueOf;
      ghost var f, start, before, limit := reader.stream, reader.pos, output.Bytes(), output.Limit();
      tokens := [];
      while true
        invariant Ready(c) && output.zout == |before| + Size(tokens)
        invariant output.Limit() >= limit && (output.buf == old(output.buf) || fresh(output.buf))
        invariant Decoded(c, f, start, tokens, reader.pos, before, output.Bytes())
        decreases UINT_MAX - output.zout
      {
        ghost var here := reader.pos;
        var outcome;
        ghost var token;
        outcome, token := ParseToken(c);
        match outcome {
          case Emitted =>
            DecodedMore(c, f, start, tokens, here, before);
            tokens := tokens + [token];
          case Finished =>
            ok := true;
            return;
          case Refused =>
            ok := false;
            RefusedForGood(c, f, start, tokens, here, |before|, 8 * |reader.data|, limit);
            return;
        }
      }
    }

    // What a round says about the token written at the old position.
    twostate predicate Parsed(step: Step, outcome: Outcome, token: Token)
      reads reader, output, output.buf
      requires old(output.Valid()) && output.Valid()
    {
      match outcome
      case Emitted =>
        && step == Produce(token, reader.pos) && TokenSize(token) >= 1
        && TokenFits(token, |old(output.Bytes())|) && output.Bytes() == Emit(old(output.Bytes()), token)
      case Finished => step == End(reader.pos) && output.Bytes() == old(output.Bytes())
      case Refused =>
        || step == Bad || step.next > 8 * |reader.data|
        || (&& step.Produce?
            && (TokenFits(step.token, old(output.zout)) ==>
                  old(output.zout) + TokenSize(step.token) > old(output.Limit())))
    }

    // One round of the loop above.
    method ParseToken(c: BlockCode) returns (outcome: Outcome, ghost token: Token)
      requires Ready(c)
      modifies reader, output, output.buf
      ensures Ready(c)
      ensures output.Limit() >= old(output.Limit()) && (output.buf == old(output.buf) || fresh(output.buf))
      ensures Parsed(NextToken(c, reader.stream, old(reader.pos)), outcome, token)
    {
      hide Tables.Represents, SearchSymbol, Window, ValueOf;
      token := Literal(0);
      ghost var step := NextToken(c, reader.stream, reader.pos);
      var z := reader.Decode(zLength, c.ll);
      ghost var p1 := reader.pos;
      if z < 0 || z >= 286 {
        assert step == Bad || step.next > 8 * |reader.data|;
        outcome := Refused;
      } else if z < END_OF_BLOCK {
        assert step == Produce(Literal(z), p1);
        token := Literal(z);
        outcome := EmitLiteral(z);
      } else if z == END_OF_BLOCK {
        assert step == End(p1);
        outcome := if reader.hitZeofOnce && reader.numBits < 16 then Refused else Finished;
      } else {
        assert step == CopyToken(c, reader.stream, z - 257, p1);
        var read, length, distance := ReadCopy(c, z - 257);
        token := Copy(length, distance);
        if read {
          outcome := EmitCopy(length, distance);
        } else {
          outcome := Refused;
        }
      }
    }

    method EmitLiteral(z: Byte) returns (outcome: Outcome)
      requires output.Valid()
      modifies output, output.buf
      ensures output.Valid()
      ensures output.Limit() >= old(output.Limit()) && (output.buf == old(output.buf) || fresh(output.buf))
      ensures Parsed(Produce(Literal(z), reader.pos), outcome, Literal(z))
    {
      var room := MakeRoom(1);
      if room {
        output.Put(z);
      }
      outcome := if room then Emitted else Refused;
    }

    method EmitCopy(length: nat, distance: nat) returns (outcome: Outcome)
      requires output.Valid() && length >= 1 && distance >= 1
      modifies output, output.buf
      ensures output.Valid()
      ensures output.Limit() >= old(output.Limit()) && (output.buf == old(output.buf) || fresh(output.buf))
      ensures Parsed(Produce(Copy(length, distance), reader.pos), outcome, Copy(length, distance))
    {
      outcome := Refused;
      if distance <= output.zout {
        var room := MakeRoom(length);
        if room {
          output.CopyMatch(length, distance);
          outcome := Emitted;
        }
      }
    }

    // Grows the output only when `n` bytes do not fit.
    method MakeRoom(n: nat) returns (ok: bool)
      requires output.Valid()
      modifies output`buf
      ensures output.Valid() && output.Bytes() == old(output.Bytes())
      ensures output.Limit() >= old(output.Limit()) && (output.buf == old(output.buf) || fresh(output.buf))
      ensures ok ==> output.zout + n <= output.buf.Length
      ensures !ok ==> output.zout + n > old(output.Limit())
      ensures output.Limit() >= old(output.Limit())
    {
      ok := true;
      if n > output.buf.Length - output.zout {
        ok := output.Grow(n);
      }
    }

    // Reads the rest of the copy with length symbol `k`.
    method ReadCopy(c: BlockCode, k: nat) returns (ok: bool, length: nat, distance: nat)
      requires Ready(c) && k < 29
      modifies reader
      ensures Ready(c)
      ensures var step := CopyToken(c, reader.stream, k, old(reader.pos));
              if ok then step == Produce(Copy(length, distance), reader.pos) && length >= 3 && distance >= 1
              else step == Bad || step.next > 8 * |reader.data|
    {
      hide Tables.Represents, SearchSymbol, Window, ValueOf;
      length := ReadExtra(c.copies.lengthBase[k], c.copies.lengthExtra[k]);
      ok, distance := ReadDistance(c, length);
    }

    method ReadDistance(c: BlockCode, ghost length: nat) returns (ok: bool, distance: nat)
      requires Ready(c)
      modifies reader
      ensures Ready(c)
      ensures var step := DistanceToken(c, reader.stream, length, old(reader.pos));
              if ok then step == Produce(Copy(length, distance), reader.pos) && distance >= 1
              else step == Bad || step.next > 8 * |reader.data|
    {
      hide Tables.Represents, SearchSymbol, Window, ValueOf;
      ok, distance := false, 0;
      var d := reader.Decode(zDistance, c.dl);
      if 0 <= d < 30 {
        distance := ReadExtra(c.copies.distBase[d], c.copies.distExtra[d]);
        ok := true;
      }
    }

    // A base value plus the next `extra` bits.
    method ReadExtra(base: nat, extra: nat) returns (v: nat)
      requires reader.Valid() && extra < 14
      modifies reader`zbuffer, reader`codeBuffer, reader`numBits, reader`pos
      ensures reader.Valid() && reader.pos == old(reader.pos) + extra
      ensures v == base + Peek(reader.stream, old(reader.pos), extra)
    {
      v := base;
      if extra != 0 {
        var more := reader.Receive(extra);
        v := v + more;
      }
    }
  }
}
