/**
 The transaction processor of the stock-exchange servers (`processTrans` and
 its helpers). The ledger is the `unordered_map` from stock name to `Stock`;
 the per-stock mutex and condition variable are left out, and a `buy` that
 would have to wait on the condition variable is the outcome `Blocked`, with
 the ledger unchanged. Balances are `unsigned int`, so `sell` wraps modulo 2^32.

 The zarembmj servers (homework 8 and 9) accept `reset`; the raodm server does
 not. `Variant` selects between them.
 */
module StockLedger {
  import opened Text

  const U32_LIMIT: nat := 0x1_0000_0000

  /** An `unsigned int` value. */
  type Uint32 = n: nat | n < U32_LIMIT

  /** Stock.h without its mutex and condition variable. */
  datatype Stock = Stock(name: string, balance: Uint32)

  type Ledger = map<string, Stock>

  /** Which server's `processTrans` is meant: with or without the `reset` command. */
  datatype Variant = WithReset | WithoutReset

  /** Every entry is filed under its own name, as `stockMap[stock].name = stock` makes it. */
  predicate Valid(l: Ledger) {
    forall k :: k in l ==> l[k].name == k
  }

  /** What one transaction does: a new ledger and the reply text, or a `buy` left waiting. */
  datatype Outcome = Done(ledger: Ledger, msg: string) | Blocked

  /** The commands a variant's `processTrans` recognises. */
  predicate IsCommand(v: Variant, trans: string) {
    trans == "create" || trans == "buy" || trans == "sell" || trans == "status" || (v == WithReset && trans == "reset")
  }

  /** `createStock` / `checkCreate`: adds the stock only if the name is new. */
  function CreateStock(l: Ledger, name: string, balance: Uint32): (o: Outcome)
    ensures o.Done?
    ensures o.ledger.Keys == l.Keys + {name}
    ensures forall k :: k in l ==> o.ledger[k] == l[k]
    ensures name !in l ==> o.ledger[name] == Stock(name, balance)
  {
    if name !in l then
      Done(l[name := Stock(name, balance)], "Stock " + name + " created with balance = " + NatToString(balance))
    else
      Done(l, "Stock " + name + " already exists")
  }

  /** `balanceStatus` / `getStatus`: reports the balance of an existing stock. */
  function BalanceStatus(l: Ledger, name: string): (r: string)
    requires name in l
    ensures var p := "Balance for stock " + name + " = ";
      && p <= r && AllDigits(r[|p|..]) && ParseDecimal(r[|p|..]) == l[name].balance
  {
    var p := "Balance for stock " + name + " = ";
    var digits := NatToString(l[name].balance);
    ParseNatToString(l[name].balance);
    assert (p + digits)[|p|..] == digits;
    p + digits
  }

  /**
   `updateBalance`: "sell" adds (modulo 2^32); anything else is a "buy",
   which waits until the balance covers the trade and then subtracts.
   */
  function UpdateBalance(l: Ledger, trans: string, name: string, trades: Uint32): (o: Outcome)
    requires name in l
    ensures o.Blocked? <==> trans != "sell" && l[name].balance < trades
    ensures o.Done? ==> o.ledger.Keys == l.Keys && o.ledger[name].name == l[name].name
    ensures o.Done? ==> forall k :: k in l && k != name ==> o.ledger[k] == l[k]
    ensures o.Done? && trans == "sell" ==> o.ledger[name].balance == (l[name].balance + trades) % U32_LIMIT
    ensures o.Done? && trans != "sell" ==> o.ledger[name].balance + trades == l[name].balance
  {
    var stock := l[name];
    if trans == "sell" then
      Done(l[name := stock.(balance := (stock.balance + trades) % U32_LIMIT)], "Stock " + name + "'s balance updated")
    else if stock.balance >= trades then
      Done(l[name := stock.(balance := stock.balance - trades)], "Stock " + name + "'s balance updated")
    else
      Blocked
  }

  /** `processTrans`: dispatch on the command text, reporting business errors as reply text. */
  function ProcessTrans(v: Variant, l: Ledger, trans: string, name: string, trades: Uint32): (o: Outcome)
    ensures o.Blocked? <==> trans == "buy" && name in l && l[name].balance < trades
    ensures o.Done? && Valid(l) ==> Valid(o.ledger)
    ensures o.Done? && trans != "reset" ==> l.Keys <= o.ledger.Keys
  {
    if v == WithReset && trans == "reset" then Done(map[], "Stocks reset")
    else if trans == "create" then CreateStock(l, name, trades)
    else if name !in l then Done(l, "Stock not found")
    else if trans == "buy" || trans == "sell" then UpdateBalance(l, trans, name, trades)
    else if trans == "status" then Done(l, BalanceStatus(l, name))
    else Done(l, "Invalid request")
  }

  // ---------------------------------------------------------------------
  // One transaction.
  // ---------------------------------------------------------------------

  /** `create` of a new name adds exactly that entry with the given balance. */
  lemma {:induction false} CreateNew(v: Variant, l: Ledger, name: string, b: Uint32)
    requires name !in l
    ensures var o := ProcessTrans(v, l, "create", name, b);
      && o.Done?
      && o.ledger.Keys == l.Keys + {name}
      && o.ledger[name] == Stock(name, b)
      && (forall k :: k in l ==> o.ledger[k] == l[k])
      && o.msg == "Stock " + name + " created with balance = " + NatToString(b)
  {
  }

  /** `create` of an existing name changes nothing, its balance included. */
  lemma {:induction false} CreateDuplicate(v: Variant, l: Ledger, name: string, b: Uint32)
    requires name in l
    ensures ProcessTrans(v, l, "create", name, b) == Done(l, "Stock " + name + " already exists")
  {
  }

  /** `reset` empties the ledger, whatever name and amount come with it. */
  lemma {:induction false} ResetClears(l: Ledger, name: string, b: Uint32)
    ensures ProcessTrans(WithReset, l, "reset", name, b) == Done(map[], "Stocks reset")
  {
  }

  /** Without `reset` support, "reset" is an unknown command like any other. */
  lemma {:induction false} ResetUnknownWithoutReset(l: Ledger, name: string, b: Uint32)
    ensures ProcessTrans(WithoutReset, l, "reset", name, b) ==
              Done(l, if name in l then "Invalid request" else "Stock not found")
  {
  }

  /** Every command but `create` (and `reset` where supported) on a missing name is "Stock not found". */
  lemma {:induction false} MissingStock(v: Variant, l: Ledger, trans: string, name: string, b: Uint32)
    requires name !in l
    requires trans != "create" && !(v == WithReset && trans == "reset")
    ensures ProcessTrans(v, l, trans, name, b) == Done(l, "Stock not found")
  {
  }

  /** "Invalid request" comes exactly from an unknown command on an existing stock. */
  lemma {:induction false} InvalidRequestExactly(v: Variant, l: Ledger, trans: string, name: string, b: Uint32)
    ensures var o := ProcessTrans(v, l, trans, name, b);
      (o.Done? && o.msg == "Invalid request") <==> (name in l && !IsCommand(v, trans))
  {
    // Every other reply starts differently from "Invalid request".
    var o := ProcessTrans(v, l, trans, name, b);
    if v == WithReset && trans == "reset" {
    } else if trans == "create" {
      assert o.msg[0] == 'S';
    } else if name !in l {
    } else if trans == "buy" || trans == "sell" {
      assert o.Done? ==> o.msg[0] == 'S';
    } else if trans == "status" {
      assert o.msg[0] == 'B';
    }
  }

  /** `sell` adds modulo 2^32 to that stock only; the reply does not depend on the amount. */
  lemma {:induction false} SellAdds(v: Variant, l: Ledger, name: string, q: Uint32)
    requires name in l
    ensures var o := ProcessTrans(v, l, "sell", name, q);
      && o.Done?
      && o.ledger.Keys == l.Keys
      && o.ledger[name].name == l[name].name
      && o.ledger[name].balance == (l[name].balance + q) % U32_LIMIT
      && (l[name].balance + q < U32_LIMIT ==> o.ledger[name].balance == l[name].balance + q)
      && (forall k :: k in l && k != name ==> o.ledger[k] == l[k])
      && o.msg == "Stock " + name + "'s balance updated"
  {
  }

  /**
   `buy` goes ahead exactly when the balance covers the quantity, then
   subtracts exactly that much from that stock only; otherwise it waits and
   nothing changes.
   */
  lemma {:induction false} BuyGuarded(v: Variant, l: Ledger, name: string, q: Uint32)
    requires name in l
    ensures var o := ProcessTrans(v, l, "buy", name, q);
      && (o.Blocked? <==> l[name].balance < q)
      && (o.Done? ==>
            && o.ledger.Keys == l.Keys
            && o.ledger[name] == l[name].(balance := l[name].balance - q)
            && (forall k :: k in l && k != name ==> o.ledger[k] == l[k])
            && o.msg == "Stock " + name + "'s balance updated")
  {
  }

  /** `status` leaves the ledger alone and reports the balance in decimal. */
  lemma {:induction false} StatusReadOnly(v: Variant, l: Ledger, name: string, b: Uint32)
    requires name in l
    ensures ProcessTrans(v, l, "status", name, b) ==
              Done(l, "Balance for stock " + name + " = " + NatToString(l[name].balance))
  {
  }

  // ---------------------------------------------------------------------
  // Several transactions.
  // ---------------------------------------------------------------------

  /** Only the first `create` of a name succeeds; a later one leaves its balance as it was. */
  lemma {:induction false} CreateOnce(v: Variant, l: Ledger, name: string, b1: Uint32, b2: Uint32)
    ensures var o1 := ProcessTrans(v, l, "create", name, b1);
      o1.Done? && ProcessTrans(v, o1.ledger, "create", name, b2) == Done(o1.ledger, "Stock " + name + " already exists")
  {
    var o1 := ProcessTrans(v, l, "create", name, b1);
    assert name in o1.ledger;
    CreateDuplicate(v, o1.ledger, name, b2);
  }

  /** Two sells on one stock end at the same balance in either order. */
  lemma {:induction false} SellsCommute(v: Variant, l: Ledger, name: string, a: Uint32, b: Uint32)
    requires name in l
    ensures var l1 := ProcessTrans(v, l, "sell", name, a).ledger;
            var l2 := ProcessTrans(v, l, "sell", name, b).ledger;
      && name in l1 && name in l2
      && ProcessTrans(v, l1, "sell", name, b) == ProcessTrans(v, l2, "sell", name, a)
      && ProcessTrans(v, l1, "sell", name, b).ledger[name].balance == (l[name].balance + a + b) % U32_LIMIT
  {
    SellTwice(v, l, name, a, b);
    SellTwice(v, l, name, b, a);
  }

  lemma {:induction false} SellTwice(v: Variant, l: Ledger, name: string, a: Uint32, b: Uint32)
    requires name in l
    ensures var l1 := ProcessTrans(v, l, "sell", name, a).ledger;
      && name in l1
      && ProcessTrans(v, l1, "sell", name, b) ==
           Done(l[name := Stock(l[name].name, (l[name].balance + a + b) % U32_LIMIT)], "Stock " + name + "'s balance updated")
  {
    var x := l[name].balance;
    var nm := l[name].name;
    var l1 := l[name := Stock(nm, (x + a) % U32_LIMIT)];
    SellLedger(v, l, name, a);
    SellLedger(v, l1, name, b);
    ModAddAssoc(x, a, b);
    assert l1[name := Stock(nm, ((x + a) % U32_LIMIT + b) % U32_LIMIT)] == l[name := Stock(nm, (x + a + b) % U32_LIMIT)];
  }

  lemma {:induction false} SellLedger(v: Variant, l: Ledger, name: string, q: Uint32)
    requires name in l
    ensures ProcessTrans(v, l, "sell", name, q) ==
              Done(l[name := Stock(l[name].name, (l[name].balance + q) % U32_LIMIT)], "Stock " + name + "'s balance updated")
  {
  }

  lemma {:induction false} ModAddAssoc(x: nat, a: nat, b: nat)
    ensures ((x + a) % U32_LIMIT + b) % U32_LIMIT == (x + a + b) % U32_LIMIT
  {
  }

  /**
   A `buy` that has to wait goes through after a `sell` that brings the
   balance up to the quantity, leaving exactly the difference.
   */
  lemma {:induction false} BuyAfterSell(v: Variant, l: Ledger, name: string, q: Uint32, s: Uint32)
    requires name in l
    requires ProcessTrans(v, l, "buy", name, q).Blocked?
    requires l[name].balance + s < U32_LIMIT && l[name].balance + s >= q
    ensures var l1 := ProcessTrans(v, l, "sell", name, s).ledger;
      && name in l1
      && ProcessTrans(v, l1, "buy", name, q).Done?
      && ProcessTrans(v, l1, "buy", name, q).ledger[name].balance == l[name].balance + s - q
  {
    SellAdds(v, l, name, s);
    var l1 := ProcessTrans(v, l, "sell", name, s).ledger;
    BuyGuarded(v, l1, name, q);
  }

  lemma {:induction false} SmallNumerals()
    ensures NatToString(25) == "25" && NatToString(100) == "100" && NatToString(125) == "125"
  {
    assert NatToString(2) == "2" && NatToString(10) == "10" && NatToString(12) == "12";
  }

  /** The exchange opens with `create ibm 100`. */
  lemma {:induction false} IbmCreate(v: Variant)
    ensures ProcessTrans(v, map[], "create", "ibm", 100) ==
              Done(map["ibm" := Stock("ibm", 100)], "Stock " + "ibm" + " created with balance = " + "100")
  {
    SmallNumerals();
    CreateNew(v, map[], "ibm", 100);
    assert map[]["ibm" := Stock("ibm", 100)] == map["ibm" := Stock("ibm", 100)];
  }

  /** A second `create ibm 50` is refused and the balance stays 100. */
  lemma {:induction false} IbmCreateAgain(v: Variant)
    ensures ProcessTrans(v, map["ibm" := Stock("ibm", 100)], "create", "ibm", 50) ==
              Done(map["ibm" := Stock("ibm", 100)], "Stock " + "ibm" + " already exists")
  {
    CreateDuplicate(v, map["ibm" := Stock("ibm", 100)], "ibm", 50);
  }

  /** Selling 25 of the 100 shares gives 125. */
  lemma {:induction false} IbmSell(v: Variant)
    ensures ProcessTrans(v, map["ibm" := Stock("ibm", 100)], "sell", "ibm", 25) ==
              Done(map["ibm" := Stock("ibm", 125)], "Stock " + "ibm" + "'s balance updated")
  {
    var l := map["ibm" := Stock("ibm", 100)];
    SellLedger(v, l, "ibm", 25);
    assert l["ibm" := Stock("ibm", (100 + 25) % U32_LIMIT)] == map["ibm" := Stock("ibm", 125)];
  }

  /** `status` then reports 125. */
  lemma {:induction false} IbmStatus(v: Variant)
    ensures ProcessTrans(v, map["ibm" := Stock("ibm", 125)], "status", "ibm", 0) ==
              Done(map["ibm" := Stock("ibm", 125)], "Balance for stock " + "ibm" + " = " + "125")
  {
    SmallNumerals();
    StatusReadOnly(v, map["ibm" := Stock("ibm", 125)], "ibm", 0);
  }

  /** A buy of 200 out of 125 waits; after 100 more are sold it goes through and leaves 25. */
  lemma {:induction false} IbmBuyWaits(v: Variant)
    ensures ProcessTrans(v, map["ibm" := Stock("ibm", 125)], "buy", "ibm", 200).Blocked?
    ensures ProcessTrans(v, map["ibm" := Stock("ibm", 125)], "sell", "ibm", 100).ledger
              == map["ibm" := Stock("ibm", 225)]
    ensures ProcessTrans(v, map["ibm" := Stock("ibm", 225)], "buy", "ibm", 200) ==
              Done(map["ibm" := Stock("ibm", 25)], "Stock " + "ibm" + "'s balance updated")
  {
    var l3 := map["ibm" := Stock("ibm", 125)];
    BuyGuarded(v, l3, "ibm", 200);
    SellLedger(v, l3, "ibm", 100);
    assert l3["ibm" := Stock("ibm", (125 + 100) % U32_LIMIT)] == map["ibm" := Stock("ibm", 225)];
    var l4 := map["ibm" := Stock("ibm", 225)];
    BuyGuarded(v, l4, "ibm", 200);
    assert l4["ibm" := Stock("ibm", 225 - 200)] == map["ibm" := Stock("ibm", 25)];
  }
}
