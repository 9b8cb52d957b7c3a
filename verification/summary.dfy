/** The text the widget shows after clicks: the summary line listing every
    clicked item with its click count, and the output log of clicked values. */
module Summary {
  import opened Text
  import opened Items

  /** The summary line while nothing has been clicked. */
  const Placeholder: string := "Нажмите на элемент в синем блоке, " + "чтобы слово появилось здесь."

  /** The word after the click count: `раза` for two to four clicks and
      `раз` for any other count (the rule departs from Russian grammar from
      22 on, which takes `раза` for 22 to 24, 32 to 34, ...; it is kept as the
      widget has it). */
  function Plural(times: nat): (w: string)
    ensures w == "раза" <==> 2 <= times <= 4
    ensures w == "раз" <==> !(2 <= times <= 4)
  {
    if times == 1 then "раз"
    else if 2 <= times <= 4 then "раза"
    else "раз"
  }

  /** One entry of the summary, `нажали N раз(а) на элемент "key value"`. */
  function Phrase(o: Item): string {
    "нажали " + NatToString(o.clicks) + " " + Plural(o.clicks) + " на элемент \"" + o.key + " " + o.value + "\""
  }

  /** The items that have been clicked at least once, in registry order. */
  function Clicked(items: seq<Item>): (r: seq<Item>)
    ensures |r| <= |items|
    ensures forall k :: 0 <= k < |r| ==> r[k].clicks > 0
  {
    if |items| == 0 then []
    else (if items[0].clicks > 0 then [items[0]] else []) + Clicked(items[1..])
  }

  function Phrases(items: seq<Item>): (r: seq<string>)
    ensures |r| == |items|
  {
    seq(|items|, k requires 0 <= k < |items| => Phrase(items[k]))
  }

  /** The summary line: the phrases of the clicked items joined by `, `, or
      the placeholder when there are none. */
  function ClickSummary(items: seq<Item>): (s: string)
    ensures (forall i :: 0 <= i < |items| ==> items[i].clicks == 0) ==> s == Placeholder
    ensures (exists i :: 0 <= i < |items| && items[i].clicks > 0) ==> s == Join(Phrases(Clicked(items)), ", ")
  {
    ClickedNone(items);
    var c := Clicked(items);
    if |c| > 0 then Join(Phrases(c), ", ") else Placeholder
  }

  /** An item is listed exactly when it is in the registry and has been
      clicked. */
  lemma {:induction false} ClickedMembers(items: seq<Item>, o: Item)
    ensures o in Clicked(items) <==> o in items && o.clicks > 0
  {
    if |items| > 0 {
      ClickedMembers(items[1..], o);
      assert items == [items[0]] + items[1..];
    }
  }

  /** The listing keeps registry order: the clicked items of a registry in
      two parts are those of the first part followed by those of the second. */
  lemma {:induction false} ClickedAppend(a: seq<Item>, b: seq<Item>)
    ensures Clicked(a + b) == Clicked(a) + Clicked(b)
  {
    if |a| > 0 {
      ClickedAppend(a[1..], b);
      assert (a + b)[1..] == a[1..] + b;
    } else {
      assert a + b == b;
    }
  }

  /** Nothing is listed exactly when no item has been clicked. */
  lemma {:induction false} ClickedNone(items: seq<Item>)
    ensures |Clicked(items)| == 0 <==> forall i :: 0 <= i < |items| ==> items[i].clicks == 0
  {
    if |items| > 0 {
      ClickedNone(items[1..]);
      if items[0].clicks == 0 {
        forall i | 0 < i < |items| ensures items[i].clicks == items[1..][i - 1].clicks {
        }
      }
    }
  }

  /** The summary is the placeholder exactly when no item has been clicked:
      a non-empty summary starts with a lower-case `н`, the placeholder with
      an upper-case `Н`. */
  lemma SummaryIsPlaceholder(items: seq<Item>)
    ensures ClickSummary(items) == Placeholder <==> forall i :: 0 <= i < |items| ==> items[i].clicks == 0
  {
    ClickedNone(items);
    var c := Clicked(items);
    if |c| > 0 {
      var ps := Phrases(c);
      JoinHead(ps, ", ");
      assert ps[0][0] == 'н';
      assert Placeholder[0] == 'Н';
    }
  }

  /** When exactly one item has been clicked, it alone is listed. */
  lemma {:induction false} ClickedSingle(items: seq<Item>, i: nat)
    requires i < |items| && items[i].clicks > 0
    requires forall j :: 0 <= j < |items| && j != i ==> items[j].clicks == 0
    ensures Clicked(items) == [items[i]]
  {
    if i == 0 {
      ClickedNone(items[1..]);
    } else {
      ClickedSingle(items[1..], i - 1);
    }
  }

  /** The phrase of an item clicked twice reads `нажали 2 раза`. */
  lemma PhraseOfTwoClicks(o: Item)
    requires o.clicks == 2
    ensures Phrase(o) == "нажали 2 раза на элемент \"" + o.key + " " + o.value + "\""
  {
    assert NatToString(2) == "2";
  }

  // ---------------------------------------------------------------------
  // The output log
  // ---------------------------------------------------------------------

  /** A coloured piece of text appended to the output log. */
  datatype Span = Span(text: string, color: Color)

  /** The log's visible text, the concatenation of its spans. */
  function LogText(log: seq<Span>): string {
    if |log| == 0 then "" else LogText(log[..|log| - 1]) + log[|log| - 1].text
  }

  /** Appends a clicked value, preceded by a space unless the log is still
      empty. */
  function AppendToLog(log: seq<Span>, value: string, color: Color): (r: seq<Span>)
    ensures |r| == |log| + 1 && r[..|log|] == log && r[|log|].color == color
    ensures LogText(r) == if LogText(log) == "" then value else LogText(log) + " " + value
  {
    var r := log + [Span((if LogText(log) == "" then "" else " ") + value, color)];
    assert r[..|log|] == log;
    r
  }

  /** The log after appending `values` one at a time, all in `color`. */
  function AppendAll(log: seq<Span>, values: seq<string>, color: Color): (r: seq<Span>)
    ensures |r| == |log| + |values|
  {
    if |values| == 0 then log
    else AppendToLog(AppendAll(log, values[..|values| - 1], color), values[|values| - 1], color)
  }

  /** Starting from an empty log, clicked non-empty values read as the values
      separated by single spaces. */
  lemma {:induction false} LogReadsJoined(values: seq<string>, color: Color)
    requires forall k :: 0 <= k < |values| ==> |values[k]| > 0
    ensures LogText(AppendAll([], values, color)) == Join(values, " ")
  {
    var n := |values|;
    if n > 0 {
      var init := values[..n - 1];
      LogReadsJoined(init, color);
      AppendAllLast([], values, color);
      if n > 1 {
        JoinLast(values, " ");
        JoinHead(init, " ");
      }
    }
  }

  /** The log after `values` is the log after all but the last value, with
      the last one appended. */
  lemma AppendAllLast(log: seq<Span>, values: seq<string>, color: Color)
    requires |values| > 0
    ensures var before := LogText(AppendAll(log, values[..|values| - 1], color));
      LogText(AppendAll(log, values, color))
        == if before == "" then values[|values| - 1] else before + " " + values[|values| - 1]
  {
  }
}
