/** The derived figures of the form (components/PettyCashForm.tsx): the net
    total of the expense rows and the balance left of the float. */
module Totals {
  import opened Types

  /** A row's contribution: a refund counts against the total, anything else for it. */
  function Signed(kind: ExpenseType, amount: nat): int
  {
    if kind == Refund then -(amount as int) else amount
  }

  /** `expenses.reduce((sum, item) => …, 0)`, folding from the first row. */
  function Total(es: seq<ExpenseItem>): int
  {
    if es == [] then 0 else Total(es[..|es| - 1]) + Signed(es[|es| - 1].kind, es[|es| - 1].amount)
  }

  /** The float minus the net total. */
  function Remaining(initialAmount: nat, es: seq<ExpenseItem>): int
  {
    initialAmount - Total(es)
  }

  /** Sum of the amounts of the rows of one kind. */
  function SumOf(es: seq<ExpenseItem>, kind: ExpenseType): nat
  {
    if es == [] then 0
    else SumOf(es[1..], kind) + (if es[0].kind == kind then es[0].amount else 0)
  }

  lemma {:induction false} SumOfConcat(a: seq<ExpenseItem>, b: seq<ExpenseItem>, kind: ExpenseType)
    ensures SumOf(a + b, kind) == SumOf(a, kind) + SumOf(b, kind)
  {
    if a != [] {
      assert (a + b)[1..] == a[1..] + b;
      SumOfConcat(a[1..], b, kind);
    } else {
      assert a + b == b;
    }
  }

  /** The net total is the sum of the costs minus the sum of the refunds. */
  lemma {:induction false} TotalIsCostsMinusRefunds(es: seq<ExpenseItem>)
    ensures Total(es) == SumOf(es, Cost) - SumOf(es, Refund)
  {
    if es != [] {
      var p, e := es[..|es| - 1], es[|es| - 1];
      TotalIsCostsMinusRefunds(p);
      assert p + [e] == es;
      SumOfConcat(p, [e], Cost);
      SumOfConcat(p, [e], Refund);
      assert [e][1..] == [];
    }
  }

  lemma {:induction false} TotalConcat(a: seq<ExpenseItem>, b: seq<ExpenseItem>)
    ensures Total(a + b) == Total(a) + Total(b)
  {
    if b == [] {
      assert a + b == a;
    } else {
      var b' := b[..|b| - 1];
      assert (a + b)[..|a + b| - 1] == a + b';
      TotalConcat(a, b');
    }
  }

  /** Reordering the rows does not change the total. */
  lemma {:induction false} TotalPermutation(a: seq<ExpenseItem>, b: seq<ExpenseItem>)
    requires multiset(a) == multiset(b)
    ensures Total(a) == Total(b)
    decreases |a|
  {
    if a == [] {
      assert |multiset(b)| == 0;
    } else {
      var p, e := a[..|a| - 1], a[|a| - 1];
      assert a == p + [e];
      assert e in multiset(b);
      var j :| 0 <= j < |b| && b[j] == e;
      var rest := b[..j] + b[j + 1..];
      assert b == b[..j] + [e] + b[j + 1..];
      assert multiset(b) == multiset(b[..j]) + multiset{e} + multiset(b[j + 1..]);
      assert multiset(a) == multiset(p) + multiset{e};
      assert multiset(p) == multiset(a) - multiset{e};
      assert multiset(rest) == multiset(b[..j]) + multiset(b[j + 1..]);
      assert multiset(rest) == multiset(b) - multiset{e};
      TotalPermutation(p, rest);
      TotalConcat(b[..j] + [e], b[j + 1..]);
      TotalConcat(b[..j], [e]);
      TotalConcat(b[..j], b[j + 1..]);
      assert [e][..0] == [];
    }
  }

  /** The worked example: a 1000 cost and a 400 refund net to 600, which
      leaves 4400 of a 5000 float. */
  lemma CostAndRefundExample(a: ExpenseItem, b: ExpenseItem)
    requires a.amount == 1000 && a.kind == Cost
    requires b.amount == 400 && b.kind == Refund
    ensures Total([a, b]) == 600
    ensures Remaining(5000, [a, b]) == 4400
  {
    assert [a, b][..1] == [a];
    assert [a][..0] == [];
    assert Total([a]) == 1000;
    assert Total([a, b]) == Total([a]) + Signed(b.kind, b.amount);
  }

  /** How the total is coloured: negative means the refunds outweigh the costs. */
  datatype TotalTone = NetSpend | NetRefund

  /** How the balance is coloured: negative means the float is overspent. */
  datatype BalanceTone = WithinFloat | Overspent

  function ToneOfTotal(total: int): TotalTone
  {
    if total < 0 then NetRefund else NetSpend
  }

  function ToneOfBalance(balance: int): BalanceTone
  {
    if balance < 0 then Overspent else WithinFloat
  }

  /** The total shows as a net refund exactly when refunds exceed costs. */
  lemma NetRefundIff(es: seq<ExpenseItem>)
    ensures ToneOfTotal(Total(es)) == NetRefund <==> SumOf(es, Refund) > SumOf(es, Cost)
  {
    TotalIsCostsMinusRefunds(es);
  }

  /** The balance shows as overspent exactly when the costs exceed the float
      plus the refunds. */
  lemma OverspentIff(initialAmount: nat, es: seq<ExpenseItem>)
    ensures ToneOfBalance(Remaining(initialAmount, es)) == Overspent
        <==> SumOf(es, Cost) > initialAmount + SumOf(es, Refund)
  {
    TotalIsCostsMinusRefunds(es);
  }
}
