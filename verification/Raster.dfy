/** A tile as the transforms see it (src/RawTile.h): samples and dimensions that they replace in place
    (src/Transforms.cc). */
module Raster {

  /** height rows of width pixels of channels samples. */
  datatype Image = Image(width: nat, height: nat, channels: nat, samples: seq<int>) {
    predicate Valid() {
      |samples| == width * height * channels
    }
  }

  /** What samples of bpc bits occupy. */
  function Bytes(samples: nat, bpc: nat): nat { samples * (bpc / 8) }

  /** Whole bytes for each sample: eight more bits are one more byte, and fewer than eight are none. */
  lemma BytesIs(samples: nat, bpc: nat)
    ensures Bytes(samples, 8) == samples && Bytes(samples, 16) == 2 * samples && Bytes(samples, 32) == 4 * samples
    ensures bpc < 8 ==> Bytes(samples, bpc) == 0
    ensures Bytes(samples, bpc + 8) == Bytes(samples, bpc) + samples
  {
    assert (bpc + 8) / 8 == bpc / 8 + 1;
    assert samples * (bpc / 8 + 1) == samples * (bpc / 8) + samples;
  }

  /** The buffer can be longer than the pixels need. */
  class Tile {
    var data: array<int>
    var width: nat
    var height: nat
    var channels: nat
    var bpc: nat
    var dataLength: nat

    ghost predicate Valid()
      reads this
    {
      width * height * channels <= data.Length
    }

    ghost function Img(): (a: Image)
      requires Valid()
      reads this, data
      ensures a.Valid()
    {
      Image(width, height, channels, data[..width * height * channels])
    }

    constructor (data: array<int>, width: nat, height: nat, channels: nat, bpc: nat)
      requires width * height * channels <= data.Length
      ensures Valid() && this.data == data && this.bpc == bpc
      ensures Img() == Image(width, height, channels, data[..width * height * channels])
    {
      this.data, this.width, this.height, this.channels := data, width, height, channels;
      this.bpc, dataLength := bpc, Bytes(width * height * channels, bpc);
    }
  }

  /** c samples have been copied from data to before, which gave after. */
  predicate Copied(before: seq<int>, after: seq<int>, data: seq<int>, c: nat, to: nat, from: nat) {
    && to + c <= |before| == |after| && from + c <= |data|
    && forall i :: 0 <= i < |after| ==> after[i] == if to <= i < to + c then data[from + (i - to)] else before[i]
  }

  /** The samples of one pixel; the buffers may be the same one. */
  method CopySamples(output: array<int>, to: nat, input: array<int>, from: nat, channels: nat)
    requires to + channels <= output.Length && from + channels <= input.Length
    requires output == input ==> to <= from || from + channels <= to
    modifies output
    ensures Copied(old(output[..]), output[..], old(input[..]), channels, to, from)
  {
    for k := 0 to channels
      invariant forall i :: 0 <= i < output.Length ==>
        output[i] == if to <= i < to + k then old(input[from + (i - to)]) else old(output[i])
    {
      output[to + k] := input[from + k];
    }
  }
}
