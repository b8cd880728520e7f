// Whole programs over a bank of Montgomery elements compute what plain arithmetic modulo p computes.
module MontgomeryRuns {
  import opened Arith
  import opened Limbs
  import opened Montgomery
  import opened MontgomeryField

  datatype Call = SetMpz | Set0 | Set1 | Set | Add | Sub | Double | Neg | Halve | Mul | PowMpz | Invert

  // One call into the field: target c, operands a and b, integer argument z.
  // All three name elements of the bank and may coincide.
  datatype Instr = Instr(call: Call, c: nat, a: nat, b: nat, z: int)

  ghost predicate Defined(call: Call, x: int, z: int)
  {
    (call.Invert? ==> x != 0) && (call.PowMpz? ==> z >= 0)
  }

  // The plain meaning of a call on residues x and y modulo p.
  ghost function PlainCall(call: Call, x: int, y: int, z: int, p: int): (r: int)
    requires IsPrime(p) && 0 <= x < p && 0 <= y < p && Defined(call, x, z)
    ensures 0 <= r < p
  {
    match call
    case SetMpz => z % p
    case Set0 => 0
    case Set1 => 1
    case Set => x
    case Add => (x + y) % p
    case Sub => (x - y) % p
    case Double => 2 * x % p
    case Neg => (0 - x) % p
    case Halve => if x % 2 == 0 then x / 2 else (x + p) / 2
    case Mul => x * y % p
    case PowMpz => if x == 0 then 0 else Pow(x, z) % p
    case Invert => ModSmall(x, p); PrimeCoprime(x, p); Inverse(x, p)
  }

  ghost predicate Callable(op: Instr, v: seq<int>)
  {
    && op.c < |v| && op.a < |v| && op.b < |v|
    && Defined(op.call, v[op.a], op.z)
    && (op.call.Halve? ==> op.a == op.c)
  }

  ghost predicate Residues(v: seq<int>, p: int)
  {
    forall i :: 0 <= i < |v| ==> 0 <= v[i] < p
  }

  ghost function Plain(op: Instr, v: seq<int>, p: int): (r: int)
    requires IsPrime(p) && Residues(v, p) && Callable(op, v)
    ensures 0 <= r < p
  {
    PlainCall(op.call, v[op.a], v[op.b], op.z, p)
  }

  ghost predicate Legal(v: seq<int>, ops: seq<Instr>, p: int)
    requires IsPrime(p) && Residues(v, p)
    decreases ops
  {
    |ops| == 0 || (Callable(ops[0], v) && Legal(v[ops[0].c := Plain(ops[0], v, p)], ops[1..], p))
  }

  ghost function Run(v: seq<int>, ops: seq<Instr>, p: int): (w: seq<int>)
    requires IsPrime(p) && Residues(v, p) && Legal(v, ops, p)
    ensures |w| == |v|
    decreases ops
  {
    if |ops| == 0 then v else Run(v[ops[0].c := Plain(ops[0], v, p)], ops[1..], p)
  }

  // The bank holds v: every element is valid, elements are apart, and they decode to v.
  ghost predicate Holds(bank: seq<Element>, v: seq<int>, pr: Params)
    requires IsField(pr)
    reads bank, set e | e in bank :: e.d
  {
    && |bank| == |v|
    && (forall i :: 0 <= i < |bank| ==> bank[i].Valid(pr) && bank[i].Value(pr) == v[i])
    && (forall i, j :: 0 <= i < j < |bank| ==> bank[i] != bank[j] && bank[i].d != bank[j].d)
  }

  // A result that satisfies the defining equation is the plain one.
  lemma {:induction false} PlainUnique(call: Call, x: int, y: int, z: int, r: int, p: int)
    requires IsPrime(p) && p % 2 == 1 && 0 <= x < p && 0 <= y < p && Defined(call, x, z) && 0 <= r < p
    requires call.Halve? || call.Invert?
    requires call.Halve? ==> 2 * r % p == x
    requires call.Invert? ==> r * x % p == 1
    ensures r == PlainCall(call, x, y, z, p)
  {
    var s := PlainCall(call, x, y, z, p);
    if call.Invert? {
      assert x * r == r * x;
      InverseUnique(x, r, s, p);
      ModSmall(r, p);
      ModSmall(s, p);
    } else if 2 * r >= p {
      ModIntro(2 * r, 2 * r - p, 1, p);
      ModSmall(2 * r - p, p);
    } else {
      ModSmall(2 * r, p);
    }
  }

  method ExecuteCall(call: Call, c: Element, a: Element, b: Element, z: int, pr: Params)
    requires IsField(pr) && a.Valid(pr) && b.Valid(pr) && c.d.Length == pr.limbs && Apart(a, c) && Apart(b, c)
    requires Defined(call, a.Value(pr), z) && (call.Halve? ==> a == c)
    modifies c, c.d
    ensures c.d == old(c.d) && c.Valid(pr)
    ensures c.Value(pr) == old(PlainCall(call, a.Value(pr), b.Value(pr), z, pr.P()))
  {
    ghost var x, y := a.Value(pr), b.Value(pr);
    OddModulus(pr);
    hide IsField, Stored, Decode, Pow, Inverse, Coprime;
    match call {
      case SetMpz => FpSetMpz(c, z, pr);
      case Set0 => ClearElement(c, pr);
      case Set1 => FpSet1(c, pr);
      case Set => FpSet(c, a, pr);
      case Add => FpAdd(c, a, b, pr);
      case Sub => FpSub(c, a, b, pr);
      case Double => FpDouble(c, a, pr);
      case Neg => FpNeg(c, a, pr);
      case Halve => FpHalve(c, c, pr); PlainUnique(call, x, y, z, c.Value(pr), pr.P());
      case Mul => FpMul(c, a, b, pr);
      case PowMpz => FpPowMpz(c, a, z, pr);
      case Invert => FpInvert(c, a, pr); PlainUnique(call, x, y, z, c.Value(pr), pr.P());
    }
  }

  method ClearElement(c: Element, pr: Params)
    requires IsField(pr) && c.d.Length == pr.limbs
    modifies c`flag
    ensures c.Valid(pr) && c.Value(pr) == 0
  {
    c.flag := 0;
  }

  method Execute(bank: seq<Element>, op: Instr, ghost v: seq<int>, pr: Params)
    requires IsField(pr) && Residues(v, pr.P()) && Holds(bank, v, pr) && Callable(op, v)
    modifies bank[op.c], bank[op.c].d
    ensures bank[op.c].d == old(bank[op.c].d)
    ensures Holds(bank, v[op.c := Plain(op, v, pr.P())], pr)
  {
    var c, a, b := bank[op.c], bank[op.a], bank[op.b];
    assert Apart(a, c) && Apart(b, c);
    assert c.Valid(pr);
    ExecuteCall(op.call, c, a, b, op.z, pr);
    hide IsField, Stored, Decode, PlainCall;
    forall i | 0 <= i < |bank| && i != op.c
      ensures bank[i].Valid(pr) && bank[i].Value(pr) == v[i]
    {
      assert bank[i] != c && bank[i].d != c.d;
    }
  }

  // Main result: after any legal program the bank holds exactly what the plain run gives,
  // with every stored value below p and its flag clear exactly when it is zero.
  method ExecuteAll(bank: seq<Element>, ops: seq<Instr>, ghost v: seq<int>, pr: Params)
    requires IsField(pr) && Residues(v, pr.P()) && Holds(bank, v, pr) && Legal(v, ops, pr.P())
    modifies bank, set e | e in bank :: e.d
    ensures Holds(bank, Run(v, ops, pr.P()), pr)
    decreases ops
  {
    if |ops| > 0 {
      Execute(bank, ops[0], v, pr);
      assert (set e | e in bank :: e.d) == old(set e | e in bank :: e.d);
      ExecuteAll(bank, ops[1..], v[ops[0].c := Plain(ops[0], v, pr.P())], pr);
    }
  }
}
