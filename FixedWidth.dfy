/**
 * Numbers written back to back in a fixed number of binary digits each: the
 * shape of `str2bin`'s output and of the word indices `this.split` and
 * `this.combine` build (src/js/shamir39.js).
 */
module FixedWidth {
  import opened NatBits
  import opened Bits

  /** Every number fits in `bits` digits. */
  predicate AllFit(vs: seq<nat>, bits: nat)
  {
    forall i :: 0 <= i < |vs| ==> vs[i] < Pow2(bits)
  }

  /** The numbers, each written in `bits` digits, the first number first. */
  function Codes(vs: seq<nat>, bits: nat): Bits
  {
    if vs == [] then [] else ToBits(vs[0], bits) + Codes(vs[1..], bits)
  }

  lemma {:induction false} CodesAppend(a: seq<nat>, b: seq<nat>, bits: nat)
    ensures Codes(a + b, bits) == Codes(a, bits) + Codes(b, bits)
    decreases |a|
  {
    if a != [] {
      calc {
        Codes(a + b, bits);
        { assert (a + b)[0] == a[0] && (a + b)[1..] == a[1..] + b; }
        ToBits(a[0], bits) + Codes(a[1..] + b, bits);
        { CodesAppend(a[1..], b, bits); }
        ToBits(a[0], bits) + (Codes(a[1..], bits) + Codes(b, bits));
        { SeqAssoc(ToBits(a[0], bits), Codes(a[1..], bits), Codes(b, bits)); }
        Codes(a, bits) + Codes(b, bits);
      }
    } else {
      assert a + b == b;
    }
  }

  /** Appending one number appends its code. */
  lemma CodesSnoc(vs: seq<nat>, i: nat, bits: nat)
    requires i < |vs|
    ensures Codes(vs[..i + 1], bits) == Codes(vs[..i], bits) + ToBits(vs[i], bits)
  {
    PrefixSnoc(vs, i + 1);
    CodesAppend(vs[..i], [vs[i]], bits);
    assert Codes([vs[i]], bits) == ToBits(vs[i], bits) + Codes([], bits);
  }

  lemma {:induction false} CodesLength(vs: seq<nat>, bits: nat)
    ensures |Codes(vs, bits)| == |vs| * bits
    decreases |vs|
  {
    if vs != [] {
      CodesLength(vs[1..], bits);
    }
  }

  /** Binary strings written one after the other. */
  function Flatten(gs: seq<Bits>): Bits
  {
    if gs == [] then [] else gs[0] + Flatten(gs[1..])
  }

  lemma {:induction false} FlattenAppend(a: seq<Bits>, b: seq<Bits>)
    ensures Flatten(a + b) == Flatten(a) + Flatten(b)
    decreases |a|
  {
    if a != [] {
      calc {
        Flatten(a + b);
        { assert (a + b)[0] == a[0] && (a + b)[1..] == a[1..] + b; }
        a[0] + Flatten(a[1..] + b);
        { FlattenAppend(a[1..], b); }
        a[0] + (Flatten(a[1..]) + Flatten(b));
        { SeqAssoc(a[0], Flatten(a[1..]), Flatten(b)); }
        Flatten(a) + Flatten(b);
      }
    } else {
      assert a + b == b;
    }
  }

  lemma FlattenSnoc(gs: seq<Bits>, i: nat)
    requires i < |gs|
    ensures Flatten(gs[..i + 1]) == Flatten(gs[..i]) + gs[i]
  {
    PrefixSnoc(gs, i + 1);
    FlattenAppend(gs[..i], [gs[i]]);
    assert Flatten([gs[i]]) == gs[i] + Flatten([]);
  }

  /** The numbers binary strings denote. */
  function Values(gs: seq<Bits>): (vs: seq<nat>)
    ensures |vs| == |gs|
  {
    seq(|gs|, i requires 0 <= i < |gs| => Value(gs[i]))
  }

  /** Strings of one width written one after the other are their numbers' codes in that width. */
  lemma {:induction false} FlattenIsCodes(gs: seq<Bits>, bits: nat)
    requires forall i :: 0 <= i < |gs| ==> |gs[i]| == bits
    ensures Flatten(gs) == Codes(Values(gs), bits)
    decreases |gs|
  {
    if gs != [] {
      FlattenIsCodes(gs[1..], bits);
      ToBitsOfValue(gs[0]);
      assert Values(gs)[1..] == Values(gs[1..]);
    }
  }
}
