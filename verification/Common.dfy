/** Failure-compatible results and the byte types every other module uses. */
module Common {
  datatype Option<+T> = None | Some(value: T) {
    predicate IsFailure() {
      None?
    }

    function PropagateFailure<U>(): Option<U>
      requires None?
    {
      None
    }

    function Extract(): T
      requires Some?
    {
      value
    }
  }

  datatype Result<+T, +E> = Ok(value: T) | Err(error: E) {
    predicate IsFailure() {
      Err?
    }

    function PropagateFailure<U>(): Result<U, E>
      requires Err?
    {
      Err(error)
    }

    function Extract(): T
      requires Ok?
    {
      value
    }
  }

  /** A `u8`. */
  type byte = b: int | 0 <= b < 256

  /** A `Vec<u8>`, `&[u8]` or `Bytes`. */
  type bytes = seq<byte>

  /** A `[u8; 32]`: commitments, Merkle roots and keys. */
  type Bytes32 = b: bytes | |b| == 32 witness seq(32, i => 0)

  /** A `[u8; 24]`: the nonce of the extended-nonce cipher. */
  type Bytes24 = b: bytes | |b| == 24 witness seq(24, i => 0)

  /** One more than the largest `u64` (and `usize`). */
  const TWO_TO_THE_64 := 0x1_0000_0000_0000_0000

  predicate StartsWith(s: string, prefix: string) {
    |prefix| <= |s| && s[..|prefix|] == prefix
  }

  /** `s.strip_prefix(prefix).unwrap_or(s)`: removes one occurrence at most. */
  function StripPrefix(s: string, prefix: string): string {
    if StartsWith(s, prefix) then s[|prefix|..] else s
  }

  /** One occurrence goes if there is one, and nothing else ever does. */
  lemma StripPrefixExactly(s: string, prefix: string, r: string)
    ensures StripPrefix(s, prefix) == r <==> s == prefix + r || (s == r && forall t :: s != prefix + t)
    ensures StartsWith(s, prefix) <==> exists t :: s == prefix + t
  {
    if StartsWith(s, prefix) {
      assert s == prefix + s[|prefix|..];
    }
    forall t | s == prefix + t
      ensures StartsWith(s, prefix) && StripPrefix(s, prefix) == t
    {
      StripPrefixed(prefix, t);
    }
  }

  lemma StripPrefixed(prefix: string, s: string)
    ensures StartsWith(prefix + s, prefix)
    ensures StripPrefix(prefix + s, prefix) == s
  {
    assert (prefix + s)[..|prefix|] == prefix;
    assert (prefix + s)[|prefix|..] == s;
  }
}
