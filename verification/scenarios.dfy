/** Worked examples of the widget's behaviour on concrete inputs. */
module Scenarios {
  import opened Text
  import opened Sorting
  import opened Items
  import opened Wrappers
  import opened Summary
  import opened Board

  const ExampleLine: string := "3-Banana-apple-1"
  const ExampleTokens: seq<string> := ["3", "Banana", "apple", "1"]

  lemma ExampleJoin()
    ensures Join(ExampleTokens, "-") == ExampleLine
  {
    JoinCons("3", ExampleTokens[1..], "-");
    JoinCons("Banana", ExampleTokens[2..], "-");
    JoinCons("apple", ExampleTokens[3..], "-");
  }

  /** Each word of the example is a token: non-empty, dash-free, with no
      whitespace at either end. */
  lemma ExampleAreTokens()
    ensures forall k :: 0 <= k < |ExampleTokens| ==> IsToken(ExampleTokens[k])
  {
    assert "Banana"[0] == 'B' && "Banana"[5] == 'a';
    assert "apple"[0] == 'a' && "apple"[4] == 'e';
  }

  /** The example line has four tokens, in input order. */
  lemma ExampleTokensOf()
    ensures Tokens(ExampleLine) == ExampleTokens
  {
    ExampleJoin();
    ExampleAreTokens();
    TokensOfJoin(ExampleTokens);
  }

  lemma ExampleGroups()
    ensures OfKind(ExampleTokens, WordLower) == ["apple"]
    ensures OfKind(ExampleTokens, WordUpper) == ["Banana"]
    ensures OfKind(ExampleTokens, Number) == ["3", "1"]
  {
    assert Classify("3") == Number;
    assert Classify("1") == Number;
    assert !IsAllDigits("Banana") by { assert !IsDigit("Banana"[0]); }
    assert Classify("Banana") == WordUpper;
    assert !IsAllDigits("apple") by { assert !IsDigit("apple"[0]); }
    assert Classify("apple") == WordLower;
  }

  lemma ExampleNumbers()
    ensures SortBy(["3", "1"], NumberOrder()) == ["1", "3"]
  {
    assert DigitsValue("3") == 3 by { assert "3"[..0] == ""; }
    assert DigitsValue("1") == 1 by { assert "1"[..0] == ""; }
    assert NumberKey("3") == 3 && NumberKey("1") == 1;
    var le := NumberOrder();
    assert !le("3", "1");
    assert SortBy(["1"], le) == ["1"] by {
      assert ["1"][1..] == [];
    }
    assert Insert("3", ["1"], le) == ["1", "3"] by {
      assert ["1"][1..] == [];
    }
    assert ["3", "1"][1..] == ["1"];
  }

  lemma ExampleLayout()
    ensures var r := Layout(["apple"], ["Banana"], ["1", "3"]);
      && |r| == 4
      && r[0].key == "a1" && r[0].value == "apple" && r[0].id == "item-0"
      && r[1].key == "b1" && r[1].value == "Banana" && r[1].id == "item-1"
      && r[2].key == "n1" && r[2].value == "1" && r[2].id == "item-2"
      && r[3].key == "n2" && r[3].value == "3" && r[3].id == "item-3"
  {
    assert NatToString(0) == "0";
    assert NatToString(1) == "1";
    assert NatToString(2) == "2";
    assert NatToString(3) == "3";
  }

  /** `3-Banana-apple-1` lays out as apple (a1), Banana (b1), 1 (n1),
      3 (n2), whatever the word order is. */
  lemma CreateItemsExample(le: (string, string) -> bool)
    ensures var r := CreateItems(ExampleLine, le);
      && |r| == 4
      && r[0].key == "a1" && r[0].value == "apple" && r[0].id == "item-0"
      && r[1].key == "b1" && r[1].value == "Banana" && r[1].id == "item-1"
      && r[2].key == "n1" && r[2].value == "1" && r[2].id == "item-2"
      && r[3].key == "n2" && r[3].value == "3" && r[3].id == "item-3"
  {
    ExampleTokensOf();
    ExampleGroups();
    ExampleNumbers();
    assert SortBy(["apple"], le) == ["apple"];
    assert SortBy(["Banana"], le) == ["Banana"];
    assert CreateItems(ExampleLine, le) == Layout(["apple"], ["Banana"], ["1", "3"]);
    ExampleLayout();
  }

  /** A line of spaces raises the alert and keeps the board. */
  lemma BlankLineAlerts(b: Board, le: (string, string) -> bool)
    ensures Submit(b, "   ", le) == Submitted(b, Some(EmptyLineAlert))
  {
    assert AllWhitespace("   ") by {
      forall k | 0 <= k < 3 ensures IsWhitespace("   "[k]) {
        assert "   "[k] == ' ';
      }
    }
  }

  /** Clicking the same pill twice on a fresh board makes the summary read
      `нажали 2 раза на элемент "key value"`. */
  lemma TwiceClicked(b: Board, i: nat)
    requires Wf(b) && i < |b.items| && i in multiset(b.interactive)
    requires forall j :: 0 <= j < |b.items| ==> b.items[j].clicks == 0
    ensures var r := Click(Click(b, ItemId(i)), ItemId(i));
      r.info == "нажали 2 раза на элемент \"" + b.items[i].key + " " + b.items[i].value + "\""
  {
    var c := Click(b, ItemId(i));
    ClickCounts(b, i);
    ClickWf(b, ItemId(i));
    LookupRegistered(c, i);
    var r := Press(c, i);
    assert Click(c, ItemId(i)) == r;
    assert r.items[i] == b.items[i].(clicks := 2);
    ClickedSingle(r.items, i);
    PhraseOfTwoClicks(r.items[i]);
  }

  /** Two clicks on a pill with a non-empty value, starting from an empty
      log, leave the value twice in the log, separated by a space. */
  lemma TwiceClickedLog(b: Board, i: nat)
    requires Wf(b) && i < |b.items| && i in multiset(b.interactive)
    requires LogText(b.log) == "" && |b.items[i].value| > 0
    ensures var r := Click(Click(b, ItemId(i)), ItemId(i));
      LogText(r.log) == b.items[i].value + " " + b.items[i].value
  {
    var c := Click(b, ItemId(i));
    ClickLogs(b, i);
    ClickCounts(b, i);
    ClickWf(b, ItemId(i));
    ClickLogs(c, i);
  }
}
