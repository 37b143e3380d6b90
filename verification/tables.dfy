/** The default operators, and which tables built on the documented ladder of powers are non-crossing. */
module Tables {
  import opened Operators
  import opened Reference
  import opened Canonical

  function InfixOp(src: string, left: int, right: int): Op {
    Op(src, Infix, left, right)
  }

  function PrefixOp(src: string, right: int): Op {
    Op(src, Prefix, MIN_POWER, right)
  }

  const PAREN: Op := Op("(", Paren, MIN_POWER, MAX_POWER)

  const ADDITION: Op := InfixOp("+", 2000000, 2100000)
  const SUBTRACTION: Op := InfixOp("-", 2000000, 2100000)
  const MULTIPLICATION: Op := InfixOp("*", 3000000, 3100000)
  const DIVISION: Op := InfixOp("/", 3000000, 3100000)
  const REMAINDER: Op := InfixOp("%", 3000000, 3100000)
  const POSITIVE: Op := PrefixOp("+", 4000000)
  const NEGATIVE: Op := PrefixOp("-", 4000000)

  const DEFAULTS: set<Op> := {ADDITION, SUBTRACTION, MULTIPLICATION, DIVISION, REMAINDER, POSITIVE, NEGATIVE}

  const TIER: int := 1000000
  const OFFSET: int := 100000

  /** An operator with its powers in tier `n`, associating as `leftward` says if it is infix. */
  predicate OnTier(op: Op, n: nat, leftward: bool) {
    match op.kind
    case Infix => if leftward then op.left == n * TIER && op.right == n * TIER + OFFSET
                  else op.left == n * TIER + OFFSET && op.right == n * TIER
    case Prefix => op.right == n * TIER
    case Suffix => op.left == n * TIER
    case _ => false
  }

  /** A ladder: one associativity a tier, prefixes tighter than infixes and suffixes tighter than both. */
  ghost predicate Ladder(T: set<Op>, tier: map<Op, nat>, leftward: map<nat, bool>) {
    && T <= tier.Keys
    && (forall op | op in T :: tier[op] in leftward && OnTier(op, tier[op], leftward[tier[op]]))
    && (forall a, b | a in T && b in T :: Rank(a.kind) < Rank(b.kind) ==> tier[a] < tier[b])
  }

  function Rank(kind: Kind): nat {
    match kind
    case Infix => 0
    case Prefix => 1
    case _ => 2
  }

  lemma LadderIsNonCrossing(T: set<Op>, tier: map<Op, nat>, leftward: map<nat, bool>)
    requires Table(T) && Ladder(T, tier, leftward)
    ensures NonCrossing(T) && SuffixesInside(T) && Unambiguous(T)
  {
    forall a, b, c | a in T && b in T && c in T
      ensures ClearOfInfix(a, b, c) && ClearOnRight(a, b, c) && ClearOnLeft(a, b, c) && ClearOfSuffix(a, b, c) && Untied(b, c)
    {
      LadderClear(T, tier, leftward, a, b, c);
    }
    NonCrossingInside(T);
  }

  lemma LadderClear(T: set<Op>, tier: map<Op, nat>, leftward: map<nat, bool>, a: Op, b: Op, c: Op)
    requires Ladder(T, tier, leftward) && a in T && b in T && c in T
    ensures ClearOfInfix(a, b, c) && ClearOnRight(a, b, c) && ClearOnLeft(a, b, c) && ClearOfSuffix(a, b, c) && Untied(b, c)
  {
    assert OnTier(a, tier[a], leftward[tier[a]]);
    assert OnTier(b, tier[b], leftward[tier[b]]);
    assert OnTier(c, tier[c], leftward[tier[c]]);
  }

  /** The default operators are non-crossing on both sides: their runs build the one canonical tree. */
  lemma DefaultsAreNonCrossing()
    ensures Table(DEFAULTS) && NonCrossing(DEFAULTS) && SuffixesInside(DEFAULTS) && Unambiguous(DEFAULTS)
  {
    var tier := map op: Op | op in DEFAULTS :: (if op.kind.Prefix? then 4 else if op.left == 2000000 then 2 else 3) as nat;
    var leftward := map[2 := true, 3 := true, 4 := true];
    LadderIsNonCrossing(DEFAULTS, tier, leftward);
  }

  /**
   The ladder is open above the prefix tier, but a left-associative infix put
   there crosses: after the prefix, the insertion closes over what the
   recursive parser would still bind under the prefix.
   */
  lemma TighterLeftwardInfixCrosses(T: set<Op>, p: Op, c: Op)
    requires Table(T) && p in T && c in T && p.kind.Prefix? && c.kind.Infix?
    requires p.right < c.left <= c.right
    ensures !NonCrossing(T)
  {
    assert !ClearOfInfix(c, p, c);
  }
}
