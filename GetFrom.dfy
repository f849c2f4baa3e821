/**
 * The `GetFrom` flags enum (AutoComponentProperty/GetFrom.cs) and the copy of it
 * that the generator emits as part of its attribute schema.
 *
 * The enum's underlying type is the 32-bit C# `int`, and the generator casts any
 * integer constant into it, so a value of the enum is modelled as a `bv32`: every bit
 * pattern is a possible value, and `|` is the flags union.
 */
module GetFrom {

  type Flags = bv32

  const This: Flags := 1
  const Children: Flags := 1 << 1
  const Parent: Flags := 1 << 2

  /** True when `f` is exactly one of the three declared members. */
  predicate IsMember(f: Flags) {
    f == This || f == Children || f == Parent
  }

  /** A member value as it is written in C#: a literal or a left shift of a literal. */
  datatype ValueExpr = Literal(n: nat) | ShiftLeft(base: nat, amount: nat)

  function Pow2(k: nat): nat {
    if k == 0 then 1 else 2 * Pow2(k - 1)
  }

  function Eval(e: ValueExpr): nat {
    match e
    case Literal(n) => n
    case ShiftLeft(b, k) => b * Pow2(k)
  }

  /** The members as GetFrom.cs declares them, in declaration order. */
  function DeclaredMembers(): seq<(string, ValueExpr)> {
    [("This", Literal(1)), ("Children", ShiftLeft(1, 1)), ("Parent", ShiftLeft(1, 2))]
  }

  /** The members as the emitted schema text declares them, in declaration order. */
  function SchemaMembers(): seq<(string, ValueExpr)> {
    [("This", Literal(1)), ("Children", ShiftLeft(1, 1)), ("Parent", ShiftLeft(1, 2))]
  }

  /** The three members are pairwise distinct, non-zero, and each has exactly one bit set. */
  lemma MembersAreDistinctSingleBits()
    ensures This != Children && Children != Parent && This != Parent
    ensures forall m: Flags :: IsMember(m) ==> m != 0 && m & (m - 1) == 0
  {
  }

  /** The empty flag set names no member. */
  lemma ZeroIsNoMember()
    ensures !IsMember(0)
  {
  }

  /** A union of two or of all three different members equals none of the members. */
  lemma UnionOfDistinctMembersIsNoMember(a: Flags, b: Flags)
    requires IsMember(a) && IsMember(b) && a != b
    ensures !IsMember(a | b)
    ensures !IsMember(This | Children | Parent)
  {
  }

  /**
   * The schema text declares the same names, in the same order, with the same
   * values as GetFrom.cs, and those values are the constants used by the model.
   */
  lemma SchemaAgreesWithEnum()
    ensures |SchemaMembers()| == |DeclaredMembers()| == 3
    ensures forall i :: 0 <= i < 3 ==>
      SchemaMembers()[i].0 == DeclaredMembers()[i].0 &&
      Eval(SchemaMembers()[i].1) == Eval(DeclaredMembers()[i].1)
    ensures Eval(DeclaredMembers()[0].1) == This as nat
    ensures Eval(DeclaredMembers()[1].1) == Children as nat
    ensures Eval(DeclaredMembers()[2].1) == Parent as nat
  {
    assert Pow2(1) == 2 && Pow2(2) == 4;
  }
}
