/** Bytes, and which way they travel. */
module Wire {
  newtype byte = b: int | 0 <= b < 256

  /** What masked bytes are replaced with before they are parsed again. */
  const STAR: byte := 0x2A

  function Stars(n: nat): (stars: seq<byte>)
    ensures |stars| == n && forall k :: 0 <= k < n ==> stars[k] == STAR
  {
    seq(n, _ => STAR)
  }

  datatype Direction = Sent | Received

  /** `bytes` spell `text`. */
  predicate Spelled(bytes: seq<byte>, text: string) {
    |bytes| == |text| && forall k :: 0 <= k < |bytes| ==> bytes[k] as int == text[k] as int
  }

  /** `bytes` stand at `pos`. */
  ghost predicate Holds(src: seq<byte>, pos: nat, bytes: seq<byte>) {
    pos + |bytes| <= |src| && src[pos..pos + |bytes|] == bytes
  }

  lemma HoldsParts(src: seq<byte>, pos: nat, a: seq<byte>, b: seq<byte>)
    requires Holds(src, pos, a + b)
    ensures Holds(src, pos, a) && Holds(src, pos + |a|, b)
  {
    assert src[pos..pos + |a|] == (a + b)[..|a|];
    assert src[pos + |a|..pos + |a| + |b|] == (a + b)[|a|..];
  }
}
