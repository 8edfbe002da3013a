/**
 * Query id generation (`get_next_query_id`): take the greatest id under
 * string order, drop its first character, parse the rest as a number, add
 * one, and format the result as "Q" followed by at least four digits; an
 * empty table or an unparseable suffix starts again at 1.
 */
module QueryIds {
  import opened Wrappers
  import opened Strings

  predicate IsGreatestIn(g: string, keys: set<string>)
  {
    g in keys && forall k :: k in keys ==> LexLe(k, g)
  }

  lemma {:induction false} GreatestExists(keys: set<string>)
    requires keys != {}
    ensures exists g :: IsGreatestIn(g, keys)
    decreases |keys|
  {
    var x :| x in keys;
    var rest := keys - {x};
    LexLeReflexive(x);
    if rest == {} {
      assert keys == {x};
      assert IsGreatestIn(x, keys);
    } else {
      GreatestExists(rest);
      var g :| IsGreatestIn(g, rest);
      LexLeTotal(x, g);
      if LexLe(x, g) {
        assert IsGreatestIn(g, keys);
      } else {
        forall k | k in keys
          ensures LexLe(k, x)
        {
          if k != x {
            LexLeTransitive(k, g, x);
          }
        }
        assert IsGreatestIn(x, keys);
      }
    }
  }

  /** The first id of `ORDER BY query_id DESC LIMIT 1`, or none for an empty table. */
  function GreatestId(keys: set<string>): (r: Option<string>)
    ensures r.None? <==> keys == {}
    ensures r.Some? ==> IsGreatestIn(r.value, keys)
  {
    if keys == {} then None
    else
      GreatestExists(keys);
      LexLeIsTotalOrder();
      var g :| IsGreatestIn(g, keys);
      Some(g)
  }

  /** The greatest id is determined by the key set: any greatest element is the one returned. */
  lemma GreatestIdUnique(g: string, keys: set<string>)
    requires IsGreatestIn(g, keys)
    ensures GreatestId(keys) == Some(g)
  {
    var r := GreatestId(keys);
    LexLeAntisymmetric(g, r.value);
  }

  /** Python's `last_id[1:]`: everything after the first character, empty for an empty id. */
  function Suffix(id: string): (s: string)
    ensures |id| == 0 ==> s == ""
    ensures |id| > 0 ==> [id[0]] + s == id
  {
    if |id| == 0 then "" else id[1..]
  }

  /** `new_num`: the parsed suffix of the last id plus one, or 1 when there is none or it does not parse. */
  function NextNumber(last: Option<string>): (n: nat)
    ensures n >= 1
    ensures last.None? ==> n == 1
  {
    match last
    case None => 1
    case Some(id) =>
      match ParseNat(Suffix(id))
      case Some(v) => v + 1
      case None => 1
  }

  /** `f"Q{n:04d}"`. */
  function FormatQueryId(n: nat): (id: string)
    ensures |id| >= 5 && id[0] == 'Q'
    ensures ParseNat(id[1..]) == Some(n)
    ensures |id| == 5 <==> n < 10000
    ensures n >= 10000 ==> id[1..] == NatToDigits(n)
    ensures n >= 1000 ==> id[1] != '0'
  {
    FormatPaddedParses(n, 4);
    NatToDigitsAtMostFour(n);
    var id := "Q" + FormatPadded(n, 4);
    assert id[1..] == FormatPadded(n, 4);
    id
  }

  /** The id `insert_query` will use for a table whose ids are `keys`. */
  function NextQueryId(keys: set<string>): (id: string)
    ensures |id| >= 5 && id[0] == 'Q' && AllDigits(id[1..])
  {
    FormatQueryId(NextNumber(GreatestId(keys)))
  }

  /** A formatted id read back as the last id yields the next number: ids advance by one. */
  lemma FormatThenNextNumber(n: nat)
    ensures NextNumber(Some(FormatQueryId(n))) == n + 1
  {
  }

  lemma FormatOne()
    ensures FormatQueryId(1) == "Q0001"
  {
    assert NatToDigits(1) == "1";
    assert Zeros(3) == "000";
  }

  /** An empty table starts at Q0001. */
  lemma NextIdOfEmpty()
    ensures NextQueryId({}) == "Q0001"
  {
    FormatOne();
  }

  /** A greatest id whose suffix is not a run of digits also restarts at Q0001. */
  lemma NextIdUnparseable(keys: set<string>, g: string)
    requires IsGreatestIn(g, keys)
    requires !(|g| >= 2 && AllDigits(g[1..]))
    ensures NextQueryId(keys) == "Q0001"
  {
    GreatestIdUnique(g, keys);
    FormatOne();
  }

  lemma NextIdUnparseableExamples()
    ensures NextQueryId({"Q"}) == "Q0001"
    ensures NextQueryId({"Qabc"}) == "Q0001"
  {
    LexLeReflexive("Q");
    NextIdUnparseable({"Q"}, "Q");
    LexLeReflexive("Qabc");
    assert !IsDigit("Qabc"[1]);
    NextIdUnparseable({"Qabc"}, "Qabc");
  }

  /** A greatest id of one character and a digit run n becomes "Q" and n + 1, zero-padded to four digits. */
  lemma NextIdNumeric(keys: set<string>, g: string)
    requires IsGreatestIn(g, keys)
    requires |g| >= 2 && AllDigits(g[1..])
    ensures NextQueryId(keys) == FormatQueryId(DigitsValue(g[1..]) + 1)
  {
    GreatestIdUnique(g, keys);
  }

  /** An id of the shape the generator produces below 10000: "Q" and exactly four digits. */
  predicate IsFourDigitId(id: string)
  {
    |id| == 5 && id[0] == 'Q' && AllDigits(id[1..])
  }

  function IdNumber(id: string): nat
    requires IsFourDigitId(id)
  {
    DigitsValue(id[1..])
  }

  /** Among four-digit ids, string order is numeric order. */
  lemma FourDigitOrder(a: string, b: string)
    requires IsFourDigitId(a) && IsFourDigitId(b)
    ensures LexLe(a, b) <==> IdNumber(a) <= IdNumber(b)
  {
    assert a == [a[0]] + a[1..] && b == [b[0]] + b[1..];
    LexLeCommonHead('Q', a[1..], b[1..]);
    DigitsOrder(a[1..], b[1..]);
  }

  /** If every id is "Q" and four digits, the generated id is not yet taken. */
  lemma NextIdFresh(keys: set<string>)
    requires forall k :: k in keys ==> IsFourDigitId(k)
    ensures NextQueryId(keys) !in keys
  {
    var id := NextQueryId(keys);
    if keys != {} && id in keys {
      var g := GreatestId(keys).value;
      var n := DigitsValue(g[1..]);
      assert Suffix(g) == g[1..];
      assert ParseNat(Suffix(g)) == Some(n);
      assert NextNumber(GreatestId(keys)) == n + 1;
      assert id == FormatQueryId(n + 1);
      assert ParseNat(id[1..]) == Some(n + 1);
      assert IdNumber(id) == n + 1;
      FourDigitOrder(id, g);
      assert false;
    }
  }

  /**
   * Below Q9999 the generator keeps the ids four-digit, one past the greatest
   * id and after every existing id, which then makes it the new greatest id:
   * successive insertions get distinct, strictly increasing ids.
   */
  lemma NextIdAdvances(keys: set<string>)
    requires forall k :: k in keys ==> IsFourDigitId(k) && IdNumber(k) < 9999
    ensures IsFourDigitId(NextQueryId(keys))
    ensures keys == {} ==> IdNumber(NextQueryId(keys)) == 1
    ensures keys != {} ==> IdNumber(NextQueryId(keys)) == IdNumber(GreatestId(keys).value) + 1
    ensures forall k :: k in keys ==> LexLt(k, NextQueryId(keys)) && IdNumber(k) < IdNumber(NextQueryId(keys))
    ensures GreatestId(keys + {NextQueryId(keys)}) == Some(NextQueryId(keys))
  {
    var id := NextQueryId(keys);
    NextIdNumberBelowTenThousand(keys);
    if keys != {} {
      var g := GreatestId(keys).value;
      forall k | k in keys
        ensures LexLt(k, id) && IdNumber(k) < IdNumber(id)
      {
        KeyBeforeNext(k, g, id);
      }
    }
    NextIdIsGreatest(keys, id);
  }

  lemma NextIdIsGreatest(keys: set<string>, id: string)
    requires forall k :: k in keys ==> LexLt(k, id)
    ensures GreatestId(keys + {id}) == Some(id)
  {
    LexLeReflexive(id);
    assert IsGreatestIn(id, keys + {id});
    GreatestIdUnique(id, keys + {id});
  }

  lemma NextIdNumberBelowTenThousand(keys: set<string>)
    requires forall k :: k in keys ==> IsFourDigitId(k) && IdNumber(k) < 9999
    ensures IsFourDigitId(NextQueryId(keys))
    ensures keys == {} ==> IdNumber(NextQueryId(keys)) == 1
    ensures keys != {} ==> IdNumber(NextQueryId(keys)) == IdNumber(GreatestId(keys).value) + 1
  {
    var m := 1;
    if keys != {} {
      var g := GreatestId(keys).value;
      assert Suffix(g) == g[1..];
      assert ParseNat(Suffix(g)) == Some(IdNumber(g));
      m := IdNumber(g) + 1;
    }
    assert NextNumber(GreatestId(keys)) == m;
    var id := FormatQueryId(m);
    assert NextQueryId(keys) == id;
    assert |id| == 5;
    assert ParseNat(id[1..]) == Some(m);
  }

  lemma KeyBeforeNext(k: string, g: string, id: string)
    requires IsFourDigitId(k) && IsFourDigitId(g) && IsFourDigitId(id)
    requires LexLe(k, g) && IdNumber(id) == IdNumber(g) + 1
    ensures LexLt(k, id) && IdNumber(k) < IdNumber(id)
  {
    FourDigitOrder(k, g);
    FourDigitOrder(k, id);
  }

  /**
   * Past Q9999 string order no longer follows the numbers: "Q9999" sorts after
   * "Q10000", so the generator hands out "Q10000" again.
   */
  lemma NextIdRepeatsPastQ9999()
    ensures NextQueryId({"Q9999", "Q10000"}) == "Q10000"
    ensures "Q10000" in {"Q9999", "Q10000"}
  {
    var keys := {"Q9999", "Q10000"};
    LexLeReflexive("Q9999");
    assert LexLe("Q10000", "Q9999");
    assert IsGreatestIn("Q9999", keys);
    GreatestIdUnique("Q9999", keys);
    SuffixOfQ9999();
    FormatTenThousand();
  }

  lemma SuffixOfQ9999()
    ensures ParseNat(Suffix("Q9999")) == Some(9999)
  {
    assert Suffix("Q9999") == "9999";
    assert "9"[..0] == "" && DigitsValue("9") == 9;
    assert "99"[..1] == "9" && DigitsValue("99") == 99;
    assert "999"[..2] == "99" && DigitsValue("999") == 999;
    assert "9999"[..3] == "999" && DigitsValue("9999") == 9999;
  }

  lemma DigitsTimesTen(n: nat, s: string)
    requires n >= 1 && NatToDigits(n) == s
    ensures NatToDigits(10 * n) == s + "0"
  {
    assert (10 * n) / 10 == n && (10 * n) % 10 == 0;
  }

  lemma FormatTenThousand()
    ensures FormatQueryId(10000) == "Q10000"
  {
    assert NatToDigits(1) == "1";
    DigitsTimesTen(1, "1");
    DigitsTimesTen(10, "10");
    DigitsTimesTen(100, "100");
    DigitsTimesTen(1000, "1000");
    var id := FormatQueryId(10000);
    assert id[1..] == "10000";
    assert id == [id[0]] + id[1..];
  }
}
