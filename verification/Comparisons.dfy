/** What the operators of a where clause mean on ints, strings and binaries. */
module Comparisons {
  import opened Ordering
  import opened Values
  import opened Planner

  /** `s` comes before `t`: the first byte that differs is smaller, or `s` ends first. */
  ghost predicate Precedes(s: seq<byte>, t: seq<byte>) {
    exists k :: FirstDifference(s, t, k) && (if k < |s| && k < |t| then s[k] < t[k] else k == |s| < |t|)
  }

  ghost predicate FirstDifference(s: seq<byte>, t: seq<byte>, k: int) {
    0 <= k <= |s| && k <= |t| && (forall i :: 0 <= i < k ==> s[i] == t[i]) && (k < |s| && k < |t| ==> s[k] != t[k])
  }

  /** Six operators, one order: `less` is a < b, `same` is a == b. */
  ghost predicate Means(op: ConditionOp, matched: bool, less: bool, same: bool) {
    && (op == Equals ==> (matched <==> same))
    && (op == NotEquals ==> (matched <==> !same))
    && (op == Less ==> (matched <==> less))
    && (op == LessOrEqual ==> (matched <==> less || same))
    && (op == Greater ==> (matched <==> !less && !same))
    && (op == GreatOrEqual ==> (matched <==> !less))
  }

  ghost predicate Holds(a: DataValue, op: ConditionOp, b: DataValue) {
    Matches([a], [Predicate(0, op, b)])
  }

  lemma OneCondition(a: DataValue, op: ConditionOp, b: DataValue)
    ensures Holds(a, op, b) <==> MatchesOp(op, CompareValue(a, b))
  {
    var conditions := [Predicate(0, op, b)];
    assert conditions[0].column == 0 && conditions[0].op == op && conditions[0].value == b;
    hide CompareValue;
  }

  /** Ints compare as numbers. */
  lemma IntsByNumber(a: int, b: int)
    ensures Holds(IntVal(a), Equals, IntVal(b)) <==> a == b
    ensures Holds(IntVal(a), NotEquals, IntVal(b)) <==> a != b
    ensures Holds(IntVal(a), Less, IntVal(b)) <==> a < b
    ensures Holds(IntVal(a), LessOrEqual, IntVal(b)) <==> a <= b
    ensures Holds(IntVal(a), Greater, IntVal(b)) <==> a > b
    ensures Holds(IntVal(a), GreatOrEqual, IntVal(b)) <==> a >= b
  {
    forall op: ConditionOp ensures Holds(IntVal(a), op, IntVal(b)) <==> MatchesOp(op, CompareValue(IntVal(a), IntVal(b))) {
      OneCondition(IntVal(a), op, IntVal(b));
    }
    hide Holds;
  }

  lemma {:induction false} LexIsPrecedes(s: seq<byte>, t: seq<byte>)
    ensures Lex(s, t) < 0 <==> Precedes(s, t)
    ensures Lex(s, t) > 0 <==> Precedes(t, s)
    ensures Lex(s, t) == 0 <==> s == t
    decreases |s|
  {
    LexZeroIffEqual(s, t);
    var k := CommonPrefix(s, t);
    assert FirstDifference(s, t, k) && FirstDifference(t, s, k);
    OnlyOne(s, t, k);
    OnlyOne(t, s, k);
  }

  /** Where two strings first differ, and what Lex makes of that. */
  lemma {:induction false} CommonPrefix(s: seq<byte>, t: seq<byte>) returns (k: nat)
    ensures FirstDifference(s, t, k)
    ensures Lex(s, t) < 0 <==> (if k < |s| && k < |t| then s[k] < t[k] else k == |s| < |t|)
    ensures Lex(s, t) > 0 <==> (if k < |s| && k < |t| then s[k] > t[k] else k == |t| < |s|)
    decreases |s|
  {
    if s == [] || t == [] || s[0] != t[0] {
      k := 0;
    } else {
      var m := CommonPrefix(s[1..], t[1..]);
      k := m + 1;
      assert forall i :: 0 < i < k ==> s[i] == s[1..][i - 1] && t[i] == t[1..][i - 1];
    }
  }

  lemma OnlyOne(s: seq<byte>, t: seq<byte>, k: nat)
    requires FirstDifference(s, t, k)
    ensures Precedes(s, t) <==> (if k < |s| && k < |t| then s[k] < t[k] else k == |s| < |t|)
  {
    forall j | FirstDifference(s, t, j) ensures j == k { }
  }

  /** Strings compare byte by byte. */
  lemma StringsByByte(s: seq<byte>, t: seq<byte>, op: ConditionOp)
    ensures Means(op, Holds(StrVal(s), op, StrVal(t)), Precedes(s, t), s == t)
  {
    OneCondition(StrVal(s), op, StrVal(t));
    LexIsPrecedes(s, t);
    hide Holds, Lex, Precedes;
  }

  /** Binaries compare by length, and equally long ones byte by byte. */
  lemma BinariesByLength(s: seq<byte>, t: seq<byte>, op: ConditionOp)
    ensures Means(op, Holds(BinVal(s), op, BinVal(t)), |s| < |t| || (|s| == |t| && Precedes(s, t)), s == t)
  {
    OneCondition(BinVal(s), op, BinVal(t));
    LexIsPrecedes(s, t);
    hide Holds, Lex, Precedes;
  }
}
