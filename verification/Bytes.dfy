/** Bytes, byte strings and the few helpers every component shares. */
module Bytes {
  newtype byte = b: int | 0 <= b < 256

  const NUL: byte := 0
  const LF: byte := 10

  datatype Option<+T> = None | Some(value: T)

  function Min(a: nat, b: nat): nat {
    if a <= b then a else b
  }

  function Max(a: int, b: int): int {
    if a >= b then a else b
  }

  lemma Ordered(a: nat, b: nat, d: nat)
    requires a <= b
    ensures a * d <= b * d
  {
  }

  /** A prefix in two pieces. */
  lemma Pieces(s: seq<byte>, a: nat, b: nat)
    requires a <= b <= |s|
    ensures s[..b] == s[..a] + s[a..][..b - a]
  {
  }

  /** The parts joined in order. */
  function Join(parts: seq<seq<byte>>): seq<byte> {
    if parts == [] then [] else Join(parts[..|parts| - 1]) + parts[|parts| - 1]
  }

  lemma JoinSnoc(parts: seq<seq<byte>>, part: seq<byte>)
    ensures Join(parts + [part]) == Join(parts) + part
  {
    assert (parts + [part])[..|parts|] == parts;
  }

  lemma {:induction false} JoinCons(part: seq<byte>, parts: seq<seq<byte>>)
    ensures Join([part] + parts) == part + Join(parts)
  {
    if parts == [] {
      assert [part] + parts == [] + [part];
      JoinSnoc([], part);
    } else {
      var front, last := parts[..|parts| - 1], parts[|parts| - 1];
      JoinCons(part, front);
      assert [part] + parts == ([part] + front) + [last];
      JoinSnoc([part] + front, last);
    }
  }
}
