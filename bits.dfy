/**
 * The bit-packing arithmetic common to both encoders and the decoder: a group
 * of membership bits read most significant bit first, the packing of a bit
 * stream into groups of `g`, and the inverse expansion of a token into bits.
 */
module Bits {
  import opened Numeric

  function Bit(b: bool): nat {
    if b then 1 else 0
  }

  /**
   * The value of `bits` read most significant bit first, as the encoders
   * accumulate it (`v = (v << 1) + bit`, or a binary `stoi`).
   */
  function Value(bits: seq<bool>): (v: nat)
    ensures v < Pow2(|bits|)
  {
    if bits == [] then 0 else 2 * Value(bits[..|bits| - 1]) + Bit(bits[|bits| - 1])
  }

  /** The `g` low bits of `v`, most significant first. */
  function ToBits(v: nat, g: nat): (bits: seq<bool>)
    ensures |bits| == g
  {
    if g == 0 then [] else ToBits(v / 2, g - 1) + [v % 2 == 1]
  }

  /** Expanding a value that fits in `g` bits and reading it back gives the value. */
  lemma {:induction false} ValueOfToBits(v: nat, g: nat)
    requires v < Pow2(g)
    ensures Value(ToBits(v, g)) == v
  {
    if g > 0 {
      var bits := ToBits(v, g);
      assert bits[..g - 1] == ToBits(v / 2, g - 1);
      assert v / 2 < Pow2(g - 1);
      ValueOfToBits(v / 2, g - 1);
      assert Bit(bits[g - 1]) == v % 2;
    }
  }

  /** Reading a group and expanding its value to the same width gives the group. */
  lemma {:induction false} ToBitsOfValue(bits: seq<bool>)
    ensures ToBits(Value(bits), |bits|) == bits
  {
    if bits != [] {
      var n := |bits|;
      var p := bits[..n - 1];
      var v := Value(bits);
      assert v == 2 * Value(p) + Bit(bits[n - 1]);
      assert v / 2 == Value(p) && (v % 2 == 1) == bits[n - 1];
      ToBitsOfValue(p);
      assert ToBits(v, n) == ToBits(Value(p), n - 1) + [bits[n - 1]];
      assert bits == p + [bits[n - 1]];
    }
  }

  /**
   * One token per complete group of `g` consecutive bits, in stream order;
   * a trailing group of fewer than `g` bits yields no token.
   */
  function Pack(bits: seq<bool>, g: nat): seq<nat>
    requires g >= 1
    decreases |bits|
  {
    if |bits| < g then [] else [Value(bits[..g])] + Pack(bits[g..], g)
  }

  /** One token per complete group. */
  lemma {:induction false} PackLength(bits: seq<bool>, g: nat)
    requires g >= 1
    ensures |Pack(bits, g)| == |bits| / g
    decreases |bits|
  {
    if |bits| < g {
      DivModUnique(0, |bits|, g);
    } else {
      PackLength(bits[g..], g);
      DivSub(|bits|, g);
    }
  }

  /**
   * The token of the group that starts at bit `p` (a group boundary) is the
   * value of bits `p .. p+g-1`.
   */
  lemma PackToken(bits: seq<bool>, g: nat, p: nat)
    requires g >= 1 && p % g == 0 && p + g <= |bits|
    ensures p / g < |Pack(bits, g)| && Pack(bits, g)[p / g] == Value(bits[p..p + g])
  {
    var a, b := bits[..p], bits[p..];
    assert a + b == bits;
    PackAppend(a, b, g);
    PackLength(a, g);
    PackHead(b, g);
    assert b[..g] == bits[p..p + g];
  }

  /** Every token fits in `g` bits. */
  lemma {:induction false} PackBounded(bits: seq<bool>, g: nat)
    requires g >= 1
    ensures forall j :: 0 <= j < |Pack(bits, g)| ==> Pack(bits, g)[j] < Pow2(g)
    decreases |bits|
  {
    if |bits| >= g {
      PackHead(bits, g);
      PackBounded(bits[g..], g);
    }
  }

  /** Packing distributes over concatenation when the first part ends on a group boundary. */
  lemma {:induction false} PackAppend(a: seq<bool>, b: seq<bool>, g: nat)
    requires g >= 1 && |a| % g == 0
    ensures Pack(a + b, g) == Pack(a, g) + Pack(b, g)
    decreases |a|
  {
    if a == [] {
      assert a + b == b;
    } else {
      if |a| < g {
        DivModUnique(0, |a|, g);
      }
      DivSub(|a|, g);
      var ab := a + b;
      assert ab[..g] == a[..g];
      assert ab[g..] == a[g..] + b;
      PackAppend(a[g..], b, g);
    }
  }

  /** Appending a whole group after a prefix of whole groups appends its value as one token. */
  lemma PackGroup(a: seq<bool>, t: seq<bool>, g: nat)
    requires g >= 1 && |a| % g == 0 && |t| == g
    ensures Pack(a + t, g) == Pack(a, g) + [Value(t)]
  {
    PackAppend(a, t, g);
    assert t[..g] == t && t[g..] == [];
  }

  /**
   * The bits after the last complete group of `bits`: those a streaming
   * packer still holds, and which no token carries.
   */
  function Pending(bits: seq<bool>, g: nat): (p: seq<bool>)
    requires g >= 1
    ensures |p| < g && |p| <= |bits|
    decreases |bits|
  {
    if |bits| < g then bits else Pending(bits[g..], g)
  }

  /** The pending bits are the `|bits| % g` last ones. */
  lemma {:induction false} PendingLength(bits: seq<bool>, g: nat)
    requires g >= 1
    ensures |Pending(bits, g)| == |bits| % g
    decreases |bits|
  {
    if |bits| < g {
      DivModUnique(0, |bits|, g);
    } else {
      PendingLength(bits[g..], g);
      DivSub(|bits|, g);
    }
  }

  /** The pending bits are the `|s| % g` trailing bits of the stream, and their value fits in them. */
  lemma PendingTail(s: seq<bool>, g: nat)
    requires g >= 1
    ensures var p := Pending(s, g);
      |p| == |s| % g && p == s[|s| - |s| % g..] && Value(p) < Pow2(|s| % g)
  {
    PendingLength(s, g);
    PendingSuffix(s, g);
  }

  /** The pending bits end the stream. */
  lemma {:induction false} PendingSuffix(s: seq<bool>, g: nat)
    requires g >= 1
    ensures Pending(s, g) == s[|s| - |Pending(s, g)|..]
    decreases |s|
  {
    if |s| >= g {
      var tail := s[g..];
      PendingSuffix(tail, g);
      var k := |Pending(tail, g)|;
      assert tail[|tail| - k..] == s[|s| - k..];
    }
  }

  /**
   * Appending the bit that completes the pending group: the group's value
   * becomes one more token and nothing stays pending.
   */
  lemma {:induction false} PackSnocFlush(s: seq<bool>, b: bool, g: nat)
    requires g >= 1 && |Pending(s, g)| + 1 == g
    ensures Pack(s + [b], g) == Pack(s, g) + [Value(Pending(s, g) + [b])]
    ensures Pending(s + [b], g) == []
    decreases |s|
  {
    if |s| < g {
      PackSnocShort(s, b, g);
    } else {
      PackSnocLong(s, b, g);
      PackSnocFlush(s[g..], b, g);
      PackSnocFlushStep(s, b, g);
    }
  }

  /** `PackSnocFlush` for a stream of at least one group follows from `PackSnocFlush` for its tail. */
  lemma PackSnocFlushStep(s: seq<bool>, b: bool, g: nat)
    requires 1 <= g <= |s|
    requires Pack(s[g..] + [b], g) == Pack(s[g..], g) + [Value(Pending(s[g..], g) + [b])]
    requires Pending(s[g..] + [b], g) == []
    ensures Pack(s + [b], g) == Pack(s, g) + [Value(Pending(s, g) + [b])]
    ensures Pending(s + [b], g) == []
  {
    var tail := s[g..];
    PackSnocLong(s, b, g);
    var v, w := Value(s[..g]), Value(Pending(tail, g) + [b]);
    AppendAssoc([v], Pack(tail, g), [w]);
  }

  /** Appending a bit that does not complete a group only lengthens the pending bits. */
  lemma {:induction false} PackSnocShift(s: seq<bool>, b: bool, g: nat)
    requires g >= 1 && |Pending(s, g)| + 1 < g
    ensures Pack(s + [b], g) == Pack(s, g)
    ensures Pending(s + [b], g) == Pending(s, g) + [b]
    decreases |s|
  {
    if |s| < g {
      PackSnocShort(s, b, g);
    } else {
      PackSnocLong(s, b, g);
      PackSnocShift(s[g..], b, g);
    }
  }

  /** `PackSnoc` for a stream shorter than one group: it is all pending. */
  lemma PackSnocShort(s: seq<bool>, b: bool, g: nat)
    requires 1 <= g && |s| < g
    ensures Pending(s, g) == s && Pack(s, g) == []
    ensures if |s| + 1 == g then Pack(s + [b], g) == [Value(s + [b])] && Pending(s + [b], g) == []
            else Pack(s + [b], g) == [] && Pending(s + [b], g) == s + [b]
  {
    if |s| + 1 == g {
      var t := s + [b];
      PackHead(t, g);
      assert t[..g] == t && t[g..] == [];
    }
  }

  /** `PackSnoc` for a stream of at least one group follows from `PackSnoc` for its tail. */
  lemma PackSnocLong(s: seq<bool>, b: bool, g: nat)
    requires 1 <= g <= |s|
    ensures Pending(s, g) == Pending(s[g..], g) && Pending(s + [b], g) == Pending(s[g..] + [b], g)
    ensures Pack(s, g) == [Value(s[..g])] + Pack(s[g..], g)
    ensures Pack(s + [b], g) == [Value(s[..g])] + Pack(s[g..] + [b], g)
  {
    assert (s + [b])[g..] == s[g..] + [b];
    PackSnocStep(s, b, g);
  }

  /** Appending a bit to a stream of at least one group only affects the packing of its tail. */
  lemma PackSnocStep(s: seq<bool>, b: bool, g: nat)
    requires 1 <= g <= |s|
    ensures Pack(s, g) == [Value(s[..g])] + Pack(s[g..], g)
    ensures Pack(s + [b], g) == [Value(s[..g])] + Pack(s[g..] + [b], g)
  {
    var t, r := s[..g], s[g..];
    assert s == t + r;
    assert s + [b] == t + (r + [b]);
    PackCons(t, r, g);
    PackCons(t, r + [b], g);
  }

  /** A whole group in front of a stream packs to its value in front of the stream's tokens. */
  lemma PackCons(t: seq<bool>, rest: seq<bool>, g: nat)
    requires 1 <= g == |t|
    ensures Pack(t + rest, g) == [Value(t)] + Pack(rest, g)
  {
    var ts := t + rest;
    assert ts[..g] == t;
    assert ts[g..] == rest;
  }

  /** The expansion of every token into `g` bits, concatenated in token order. */
  function Unpack(tokens: seq<nat>, g: nat): seq<bool> {
    if tokens == [] then [] else ToBits(tokens[0], g) + Unpack(tokens[1..], g)
  }

  /** Unpacking the packing of a stream of whole groups gives the stream back. */
  lemma {:induction false} UnpackPack(bits: seq<bool>, g: nat)
    requires g >= 1 && |bits| % g == 0
    ensures Unpack(Pack(bits, g), g) == bits
    decreases |bits|
  {
    if bits != [] {
      if |bits| < g {
        DivModUnique(0, |bits|, g);
      }
      var head, rest := bits[..g], bits[g..];
      DivSub(|bits|, g);
      PackHead(bits, g);
      UnpackHead(Pack(bits, g), g);
      ToBitsOfValue(head);
      UnpackPack(rest, g);
      assert bits == head + rest;
    }
  }

  lemma PackHead(bits: seq<bool>, g: nat)
    requires 1 <= g <= |bits|
    ensures Pack(bits, g) == [Value(bits[..g])] + Pack(bits[g..], g)
  {
  }

  lemma UnpackHead(tokens: seq<nat>, g: nat)
    requires tokens != []
    ensures Unpack(tokens, g) == ToBits(tokens[0], g) + Unpack(tokens[1..], g)
  {
  }

  /** Unpacking one more token appends its `g` bits. */
  lemma {:induction false} UnpackSnoc(tokens: seq<nat>, v: nat, g: nat)
    ensures Unpack(tokens + [v], g) == Unpack(tokens, g) + ToBits(v, g)
    decreases |tokens|
  {
    if tokens != [] {
      assert (tokens + [v])[1..] == tokens[1..] + [v];
      UnpackSnoc(tokens[1..], v, g);
    } else {
      assert ToBits(v, g) + [] == ToBits(v, g);
    }
  }

  /** The bits of the first `j` tokens are those of the first `j - 1` followed by token `j - 1`'s. */
  lemma UnpackPrefix(tokens: seq<nat>, j: nat, g: nat)
    requires 0 < j <= |tokens|
    ensures Unpack(tokens[..j], g) == Unpack(tokens[..j - 1], g) + ToBits(tokens[j - 1], g)
  {
    assert tokens[..j] == tokens[..j - 1] + [tokens[j - 1]];
    UnpackSnoc(tokens[..j - 1], tokens[j - 1], g);
  }

  predicate IsBinary(s: string) {
    forall i :: 0 <= i < |s| ==> s[i] == '0' || s[i] == '1'
  }

  /** The bits spelled as a string of '0' and '1' characters, in the same order. */
  function BinaryString(bits: seq<bool>): (s: string)
    ensures |s| == |bits| && IsBinary(s)
  {
    seq(|bits|, i requires 0 <= i < |bits| => if bits[i] then '1' else '0')
  }

  /** The bits a string of binary digits spells; a '1' is a set bit. */
  function BitsOf(s: string): (bits: seq<bool>)
    ensures |bits| == |s|
  {
    seq(|s|, i requires 0 <= i < |s| => s[i] == '1')
  }

  lemma BinaryStringSnoc(bits: seq<bool>, b: bool)
    ensures BinaryString(bits + [b]) == BinaryString(bits) + [if b then '1' else '0']
  {
  }

  lemma BitsOfBinaryString(bits: seq<bool>)
    ensures BitsOf(BinaryString(bits)) == bits
  {
  }

  /** `std::stoi(s, 0, 2)` on a non-empty string of binary digits: its value, most significant digit first. */
  function StoiBinary(s: string): nat
    requires |s| >= 1 && IsBinary(s)
  {
    Value(BitsOf(s))
  }

  /** Concatenation is associative. */
  lemma AppendAssoc<T>(a: seq<T>, b: seq<T>, c: seq<T>)
    ensures (a + b) + c == a + (b + c)
  {
  }

  /** Rows concatenated top to bottom: the row-major scan of a grid. */
  function Flatten(rows: seq<seq<bool>>): seq<bool> {
    if rows == [] then [] else Flatten(rows[..|rows| - 1]) + rows[|rows| - 1]
  }

  /** In a grid whose rows all have `c` bits, bit `(y, x)` sits at position `y * c + x` of the scan. */
  lemma {:induction false} FlattenIndex(rows: seq<seq<bool>>, c: nat, y: nat, x: nat)
    requires forall i :: 0 <= i < |rows| ==> |rows[i]| == c
    requires y < |rows| && x < c
    ensures |Flatten(rows)| == |rows| * c
    ensures y * c + x < |Flatten(rows)| && Flatten(rows)[y * c + x] == rows[y][x]
    decreases |rows|
  {
    var n := |rows|;
    var init := rows[..n - 1];
    if y < n - 1 {
      FlattenIndex(init, c, y, x);
    } else {
      FlattenLength(init, c);
    }
  }

  lemma {:induction false} FlattenLength(rows: seq<seq<bool>>, c: nat)
    requires forall i :: 0 <= i < |rows| ==> |rows[i]| == c
    ensures |Flatten(rows)| == |rows| * c
    decreases |rows|
  {
    if rows != [] {
      var n := |rows|;
      FlattenLength(rows[..n - 1], c);
      assert (n - 1) * c + c == n * c;
    }
  }
}
