// From decoded rows to samples: the extra alpha channel.
module PngSamples {
  import opened Bits

  // Grey pixel `j` and an opaque alpha byte.
  predicate GreyAt(was: seq<Byte>, now: seq<Byte>, j: nat) {
    j < |was| && 2 * j + 1 < |now| && now[2 * j] == was[j] && now[2 * j + 1] == 255
  }

  // Colour pixel `j` and an opaque alpha byte.
  predicate ColourAt(was: seq<Byte>, now: seq<Byte>, j: nat) {
    && 3 * j + 2 < |was| && 4 * j + 3 < |now|
    && now[4 * j] == was[3 * j] && now[4 * j + 1] == was[3 * j + 1] && now[4 * j + 2] == was[3 * j + 2]
    && now[4 * j + 3] == 255
  }

  // Adds alpha to each grey pixel. Source and target may be one array: it goes
  // backwards, so that no byte is overwritten before it has been moved.
  method ExpandGrey(dest: array<Byte>, src: array<Byte>, x: nat)
    requires 2 * x <= dest.Length && x <= src.Length
    modifies dest
    ensures forall j: nat {:trigger GreyAt(old(src[..]), dest[..], j)} :: j < x ==> GreyAt(old(src[..]), dest[..], j)
    ensures dest[2 * x..] == old(dest[2 * x..])
  {
    ghost var was, rest := src[..], dest[2 * x..];
    var i := x - 1;
    while i >= 0
      invariant -1 <= i < x && src[..i + 1] == was[..i + 1] && dest[2 * x..] == rest
      invariant forall j: nat {:trigger GreyAt(was, dest[..], j)} :: i < j < x ==> GreyAt(was, dest[..], j)
    {
      ghost var before, kept := dest[..], src[..i + 1];
      assert src[i] == kept[i];
      dest[i * 2 + 1] := 255;
      dest[i * 2 + 0] := src[i];
      forall j: nat | i <= j < x
        ensures GreyAt(was, dest[..], j)
      {
        if j > i {
          assert GreyAt(was, before, j);
        }
      }
      assert forall k :: 0 <= k < i ==> src[k] == kept[k];
      i := i - 1;
    }
  }

  method MoveColour(dest: array<Byte>, src: array<Byte>, i: nat, ghost was: seq<Byte>)
    requires 4 * i + 4 <= dest.Length && 3 * i + 3 <= src.Length == |was| && src[..3 * (i + 1)] == was[..3 * (i + 1)]
    modifies dest
    ensures ColourAt(was, dest[..], i) && src[..3 * i] == was[..3 * i]
    ensures dest[4 * i + 4..] == old(dest[4 * i + 4..])
  {
    ghost var kept := src[..3 * (i + 1)];
    assert src[3 * i] == kept[3 * i] && src[3 * i + 1] == kept[3 * i + 1] && src[3 * i + 2] == kept[3 * i + 2];
    dest[i * 4 + 3] := 255;
    dest[i * 4 + 2] := src[i * 3 + 2];
    dest[i * 4 + 1] := src[i * 3 + 1];
    dest[i * 4 + 0] := src[i * 3 + 0];
    assert forall k :: 0 <= k < 3 * i ==> src[k] == kept[k];
  }

  lemma ColourKept(was: seq<Byte>, before: seq<Byte>, now: seq<Byte>, i: nat, j: nat)
    requires ColourAt(was, before, j) && i < j && |now| == |before| && 4 * i + 4 <= |now|
    requires now[4 * i + 4..] == before[4 * i + 4..]
    ensures ColourAt(was, now, j)
  {
    var d := 4 * i + 4;
    assert forall k :: d <= k < |now| ==> now[k] == now[d..][k - d];
    assert forall k :: d <= k < |now| ==> before[k] == before[d..][k - d];
  }

  // The same for three colour bytes.
  method ExpandColour(dest: array<Byte>, src: array<Byte>, x: nat)
    requires 4 * x <= dest.Length && 3 * x <= src.Length
    modifies dest
    ensures forall j: nat {:trigger ColourAt(old(src[..]), dest[..], j)} ::
      j < x ==> ColourAt(old(src[..]), dest[..], j)
    ensures dest[4 * x..] == old(dest[4 * x..])
  {
    hide ColourAt;
    ghost var was, rest := src[..], dest[4 * x..];
    var i := x - 1;
    while i >= 0
      invariant -1 <= i < x && src[..3 * (i + 1)] == was[..3 * (i + 1)] && dest[4 * x..] == rest
      invariant forall j: nat {:trigger ColourAt(was, dest[..], j)} :: i < j < x ==> ColourAt(was, dest[..], j)
    {
      ghost var before := dest[..];
      MoveColour(dest, src, i, was);
      assert dest[4 * i + 4..] == dest[..][4 * i + 4..];
      assert dest[4 * x..] == dest[4 * i + 4..][4 * (x - 1 - i)..];
      forall j: nat | i < j < x
        ensures ColourAt(was, dest[..], j)
      {
        ColourKept(was, before, dest[..], i, j);
      }
      i := i - 1;
    }
  }
}
