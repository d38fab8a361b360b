/** The repeating-key XOR of the synthetic format: the plugin that undoes it, in place. */
module Descrambler {
  import opened Wrappers
  import opened Bytes

  const KEY: seq<byte> := [0xD4, 0xA8, 0x7E, 0x31]

  function XorKeyed(data: seq<byte>): (r: seq<byte>)
    ensures |r| == |data|
  {
    seq(|data|, i requires 0 <= i < |data| => data[i] ^ KEY[i % 4])
  }

  lemma XorByteTwice(b: byte, k: byte)
    ensures (b ^ k) ^ k == b
  {
  }

  /** Scrambling and descrambling are the same operation, and it undoes itself. */
  lemma XorInvolution(data: seq<byte>)
    ensures XorKeyed(XorKeyed(data)) == data
  {
    forall i | 0 <= i < |data|
      ensures XorKeyed(XorKeyed(data))[i] == data[i]
    {
      XorByteTwice(data[i], KEY[i % 4]);
    }
  }

  /** The plugin's exported routine, on the bytes its pointer and length designate: -1 for an empty slice. */
  method Descramble(slice: array<byte>) returns (code: int)
    modifies slice
    ensures code == if slice.Length == 0 then -1 else 0
    ensures slice[..] == XorKeyed(old(slice[..]))
  {
    if slice.Length == 0 {
      return -1;
    }
    for i := 0 to slice.Length
      invariant slice[i..] == old(slice[..])[i..]
      invariant slice[..i] == XorKeyed(old(slice[..]))[..i]
    {
      ghost var scrambled := XorKeyed(old(slice[..]));
      assert slice[i] == slice[i..][0] == old(slice[..])[i];
      slice[i] := slice[i] ^ KEY[i % 4];
      assert slice[i] == scrambled[i];
      assert slice[..i + 1] == slice[..i] + [slice[i]];
      assert scrambled[..i + 1] == scrambled[..i] + [scrambled[i]];
    }
    return 0;
  }

  /** A plugin as its host sees it: the descrambled bytes, or an error. */
  type Plugin = seq<byte> -> Option<seq<byte>>

  /** The host's call of this plugin: an error code of the routine is an error. */
  function XorPlugin(payload: seq<byte>): Option<seq<byte>> {
    if payload == [] then None else Some(XorKeyed(payload))
  }

  /** Copies the payload to the plugin, runs it, and reads the bytes back. */
  method RunXorPlugin(payload: seq<byte>) returns (r: Option<seq<byte>>)
    ensures r == XorPlugin(payload)
  {
    var memory := new byte[|payload|](i requires 0 <= i < |payload| => payload[i]);
    assert memory[..] == payload;
    var code := Descramble(memory);
    r := if code != 0 then None else Some(memory[..]);
  }
}
