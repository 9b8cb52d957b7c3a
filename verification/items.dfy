/** Turning an input line into the widget's items: split on `-`, trim, drop
    empty pieces, classify each token, sort each group, and lay the groups
    out as lower-case words, upper-case words, numbers, with per-group keys
    (`a1…`, `b1…`, `n1…`) and positional identifiers (`item-0…`). */
module Items {
  import opened Text
  import opened Sorting
  import opened Wrappers

  /** The three groups a token can fall into. */
  datatype Kind = WordLower | WordUpper | Number

  /** A display colour, as a CSS colour string. */
  type Color = string

  /** One classified token and its interaction state. */
  datatype Item = Item(
    id: string,
    key: string,
    value: string,
    kind: Kind,
    originalIndex: nat,
    originalColor: Color,
    randomColor: Option<Color>,
    clicks: nat)

  /** The colour every pill starts with. */
  const DefaultColor: Color := "#d3d3d3"

  /** The separator of the input line. */
  const Separator: char := '-'

  /** The element identifier of the item at position `i`. */
  function ItemId(i: nat): string {
    "item-" + NatToString(i)
  }

  /** Distinct positions have distinct identifiers. */
  lemma {:induction false} ItemIdInjective(i: nat, j: nat)
    requires ItemId(i) == ItemId(j)
    ensures i == j
  {
    assert ItemId(i)[5..] == NatToString(i);
    assert ItemId(j)[5..] == NatToString(j);
    NatToStringInjective(i, j);
  }

  // ---------------------------------------------------------------------
  // Tokenising
  // ---------------------------------------------------------------------

  /** Every piece trimmed, `parts.map(p => p.trim())`. */
  function TrimEach(parts: seq<string>): (r: seq<string>)
    ensures |r| == |parts|
  {
    seq(|parts|, i requires 0 <= i < |parts| => Trim(parts[i]))
  }

  /** The non-empty strings of `ws`, in order, `ws.filter(p => p.length > 0)`. */
  function NonEmpty(ws: seq<string>): (r: seq<string>)
    ensures |r| <= |ws|
    ensures forall i :: 0 <= i < |r| ==> r[i] != []
  {
    if |ws| == 0 then []
    else (if ws[0] != [] then [ws[0]] else []) + NonEmpty(ws[1..])
  }

  /** The filter keeps order: filtering two consecutive parts is filtering
      each part and concatenating. */
  lemma {:induction false} NonEmptyAppend(a: seq<string>, b: seq<string>)
    ensures NonEmpty(a + b) == NonEmpty(a) + NonEmpty(b)
  {
    if |a| > 0 {
      NonEmptyAppend(a[1..], b);
      assert (a + b)[1..] == a[1..] + b;
    } else {
      assert a + b == b;
    }
  }

  /** The filter keeps every non-empty string. */
  lemma {:induction false} NonEmptyKeepsAll(ws: seq<string>)
    requires forall i :: 0 <= i < |ws| ==> ws[i] != []
    ensures NonEmpty(ws) == ws
  {
    if |ws| > 0 {
      NonEmptyKeepsAll(ws[1..]);
      assert [ws[0]] + ws[1..] == ws;
    }
  }

  /** What a token looks like: non-empty, no separator, no whitespace at
      either end. */
  predicate IsToken(w: string) {
    && |w| > 0
    && Lacks(w, Separator)
    && !IsWhitespace(w[0])
    && !IsWhitespace(w[|w| - 1])
  }

  /** `line.split('-').map(p => p.trim()).filter(p => p.length > 0)`: the
      tokens of the line, each one a token in the sense of `IsToken`. */
  function Tokens(line: string): (r: seq<string>)
    ensures forall i :: 0 <= i < |r| ==> IsToken(r[i])
  {
    var ws := TrimEach(Split(line, Separator));
    TrimmedPiecesAreTokens(Split(line, Separator));
    NonEmptyKeepsTokens(ws);
    NonEmpty(ws)
  }

  /** Tokens joined with dashes tokenise back to exactly those tokens. */
  lemma TokensOfJoin(ts: seq<string>)
    requires forall k :: 0 <= k < |ts| ==> IsToken(ts[k])
    ensures Tokens(Join(ts, [Separator])) == ts
  {
    if |ts| == 0 {
      TokensOfEmpty();
    } else {
      SplitJoin(ts, Separator);
      TrimEachOfTokens(ts);
      NonEmptyKeepsAll(ts);
    }
  }

  lemma TokensOfEmpty()
    ensures Tokens("") == []
  {
    assert Split("", Separator) == [""];
    assert Trim("") == "";
    assert TrimEach([""]) == [""];
  }

  lemma TrimEachOfTokens(ts: seq<string>)
    requires forall k :: 0 <= k < |ts| ==> IsToken(ts[k])
    ensures TrimEach(ts) == ts
  {
    forall k | 0 <= k < |ts| ensures Trim(ts[k]) == ts[k] {
      TrimOfTrimmed(ts[k]);
    }
  }

  lemma TrimmedPiecesAreTokens(parts: seq<string>)
    requires forall i :: 0 <= i < |parts| ==> Lacks(parts[i], Separator)
    ensures forall i :: 0 <= i < |parts| ==> TrimEach(parts)[i] != [] ==> IsToken(TrimEach(parts)[i])
  {
    forall i | 0 <= i < |parts| ensures TrimEach(parts)[i] != [] ==> IsToken(TrimEach(parts)[i]) {
      TrimmedIsToken(parts[i]);
    }
  }

  lemma TrimmedIsToken(p: string)
    requires Lacks(p, Separator)
    ensures Trim(p) != [] ==> IsToken(Trim(p))
  {
    TrimInfix(p);
    var t := Trim(p);
    forall k | 0 <= k < |t| ensures t[k] != Separator {
      assert t[k] == p[Start(p) + k];
    }
  }

  lemma {:induction false} NonEmptyKeepsTokens(ws: seq<string>)
    requires forall i :: 0 <= i < |ws| ==> ws[i] != [] ==> IsToken(ws[i])
    ensures forall i :: 0 <= i < |NonEmpty(ws)| ==> IsToken(NonEmpty(ws)[i])
  {
    if |ws| > 0 {
      NonEmptyKeepsTokens(ws[1..]);
    }
  }

  /** Trimming the whole line first, as the submit handler does, yields the
      same tokens as not trimming it: the whitespace it removes would have
      been trimmed off the first and last pieces anyway. */
  lemma TokensOfTrimmed(line: string)
    ensures Tokens(Trim(line)) == Tokens(line)
  {
    var m := Trim(line);
    var a := Start(line);
    TrimInfix(line);
    Bounds(line);
    assert line == line[..a] + m + line[a + |m|..];
    TokensPadded(line[..a], m, line[a + |m|..]);
  }

  /** Whitespace around a line does not change its tokens. */
  lemma TokensPadded(p: string, m: string, q: string)
    requires AllWhitespace(p) && AllWhitespace(q)
    ensures Tokens(p + m + q) == Tokens(m)
  {
    assert Lacks(p, Separator) && Lacks(q, Separator) by {
      assert !IsWhitespace(Separator);
    }
    var sp := Split(m, Separator);
    var full := Split(p + m + q, Separator);
    SplitsOfPadded(p, m, q, Separator);
    forall i | 0 <= i < |sp| ensures Trim(full[i]) == Trim(sp[i]) {
      PieceOfPadded(p, m, q, i);
    }
    assert TrimEach(full) == TrimEach(sp);
  }

  /** One piece of a padded line trims like the matching piece of the line. */
  lemma PieceOfPadded(p: string, m: string, q: string, i: nat)
    requires AllWhitespace(p) && AllWhitespace(q)
    requires Lacks(p, Separator) && Lacks(q, Separator)
    requires i < |Split(m, Separator)|
    ensures i < |Split(p + m + q, Separator)|
    ensures Trim(Split(p + m + q, Separator)[i]) == Trim(Split(m, Separator)[i])
  {
    var sp := Split(m, Separator);
    SplitsOfPadded(p, m, q, Separator);
    TrimPadded(if i == 0 then p else "", sp[i], if i == |sp| - 1 then q else "");
  }

  // ---------------------------------------------------------------------
  // Classifying
  // ---------------------------------------------------------------------

  /** The character class `[a-zа-яё]`. */
  predicate IsLowerLetter(c: char) {
    ('a' <= c <= 'z') || ('а' <= c <= 'я') || c == 'ё'
  }

  /** The character class `[A-ZА-ЯЁ]`. */
  predicate IsUpperLetter(c: char) {
    ('A' <= c <= 'Z') || ('А' <= c <= 'Я') || c == 'Ё'
  }

  /** The group of a token: all digits make a number; otherwise an upper-case
      Latin or Cyrillic first letter makes an upper-case word, and anything
      else (a lower-case letter, punctuation, another script) a lower-case
      word. */
  function Classify(w: string): (k: Kind)
    ensures k == Number <==> IsAllDigits(w)
    ensures k == WordUpper <==> !IsAllDigits(w) && |w| > 0 && IsUpperLetter(w[0])
    ensures k == WordLower <==> !IsAllDigits(w) && (|w| == 0 || !IsUpperLetter(w[0]))
  {
    if IsAllDigits(w) then Number
    else if |w| > 0 && IsLowerLetter(w[0]) then WordLower
    else if |w| > 0 && IsUpperLetter(w[0]) then WordUpper
    else WordLower
  }

  /** The tokens of group `k`, in input order. */
  function OfKind(ts: seq<string>, k: Kind): (r: seq<string>)
    ensures |r| <= |ts|
    ensures forall i :: 0 <= i < |r| ==> Classify(r[i]) == k
  {
    if |ts| == 0 then []
    else (if Classify(ts[0]) == k then [ts[0]] else []) + OfKind(ts[1..], k)
  }

  /** The three groups partition the tokens: together they hold every token
      exactly as often as the input does. */
  lemma {:induction false} GroupsPartition(ts: seq<string>)
    ensures multiset(OfKind(ts, WordLower)) + multiset(OfKind(ts, WordUpper)) + multiset(OfKind(ts, Number))
         == multiset(ts)
  {
    if |ts| > 0 {
      var t, rest := ts[0], ts[1..];
      GroupsPartition(rest);
      assert multiset(ts) == multiset{t} + multiset(rest) by {
        assert ts == [t] + rest;
      }
      OfKindStep(ts, WordLower);
      OfKindStep(ts, WordUpper);
      OfKindStep(ts, Number);
    }
  }

  lemma OfKindStep(ts: seq<string>, k: Kind)
    requires |ts| > 0
    ensures multiset(OfKind(ts, k))
         == (if Classify(ts[0]) == k then multiset{ts[0]} else multiset{}) + multiset(OfKind(ts[1..], k))
  {
  }

  lemma {:induction false} GroupsSizes(ts: seq<string>)
    ensures |OfKind(ts, WordLower)| + |OfKind(ts, WordUpper)| + |OfKind(ts, Number)| == |ts|
  {
    if |ts| > 0 {
      GroupsSizes(ts[1..]);
    }
  }

  // ---------------------------------------------------------------------
  // Sorting and laying out
  // ---------------------------------------------------------------------

  /** `Number(w)` for a digit string, exactly. */
  function NumericValue(w: string): nat {
    if forall i :: 0 <= i < |w| ==> IsDigit(w[i]) then DigitsValue(w) else 0
  }

  /** The sort key of the number group. */
  function NumberKey(w: string): int {
    NumericValue(w) as int
  }

  /** The comparator of the number group, `(a, b) => Number(a) - Number(b)`. */
  function NumberOrder(): (string, string) -> bool {
    ByKey(NumberKey)
  }

  /** The key prefix of a group. */
  function Prefix(k: Kind): char {
    match k
    case WordLower => 'a'
    case WordUpper => 'b'
    case Number => 'n'
  }

  /** The position of a group in the layout. */
  function Rank(k: Kind): nat {
    match k
    case WordLower => 0
    case WordUpper => 1
    case Number => 2
  }

  /** The item made from the `j`-th word of a group whose first item sits at
      position `start`: fresh state, key numbered from 1. */
  function FreshItem(w: string, kind: Kind, j: nat, start: nat): Item {
    Item(ItemId(start + j), [Prefix(kind)] + NatToString(j + 1), w, kind, start + j, DefaultColor, None, 0)
  }

  function Label(words: seq<string>, kind: Kind, start: nat): (r: seq<Item>)
    ensures |r| == |words|
    ensures forall j :: 0 <= j < |r| ==> r[j] == FreshItem(words[j], kind, j, start)
  {
    seq(|words|, j requires 0 <= j < |words| => FreshItem(words[j], kind, j, start))
  }

  /** The values of a sequence of items. */
  function Values(items: seq<Item>): (r: seq<string>)
    ensures |r| == |items|
    ensures forall i :: 0 <= i < |r| ==> r[i] == items[i].value
  {
    seq(|items|, i requires 0 <= i < |items| => items[i].value)
  }

  /** The values of the items of group `k`, in order. */
  function ValuesOfKind(items: seq<Item>, k: Kind): seq<string> {
    if |items| == 0 then []
    else (if items[0].kind == k then [items[0].value] else []) + ValuesOfKind(items[1..], k)
  }

  /** How many items of group `k` there are in `items`. */
  function CountKind(items: seq<Item>, k: Kind): nat {
    if |items| == 0 then 0
    else (if items[0].kind == k then 1 else 0) + CountKind(items[1..], k)
  }

  /** Each item's identifier and original index give its position, and it
      starts grey, without a random colour and with no clicks. */
  predicate FreshAtPositions(r: seq<Item>) {
    forall i :: 0 <= i < |r| ==>
      && r[i].originalIndex == i
      && r[i].id == ItemId(i)
      && r[i].originalColor == DefaultColor
      && r[i].randomColor == None
      && r[i].clicks == 0
  }

  /** Lower-case words come first, then upper-case words, then numbers. */
  predicate GroupsInOrder(r: seq<Item>) {
    forall i, j :: 0 <= i < j < |r| ==> Rank(r[i].kind) <= Rank(r[j].kind)
  }

  /** Each item's key is its group's prefix followed by one more than the
      number of items of its group before it, so every group is numbered
      1, 2, 3, ... without gaps. */
  predicate KeysNumbered(r: seq<Item>) {
    forall i :: 0 <= i < |r| ==>
      r[i].key == [Prefix(r[i].kind)] + NatToString(CountKind(r[..i], r[i].kind) + 1)
  }

  /** The items of the line, as `createItemsFromLine` builds them: one per
      token, lower-case words first, then upper-case words, then numbers;
      each item's key is its group's prefix followed by one more than the
      number of items of its group before it; its identifier and original
      index give its position; it starts grey, without a random colour and
      with no clicks. */
  function CreateItems(line: string, le: (string, string) -> bool): (r: seq<Item>)
    ensures |r| == |Tokens(line)|
    ensures multiset(Values(r)) == multiset(Tokens(line))
    ensures FreshAtPositions(r)
    ensures forall i :: 0 <= i < |r| ==> r[i].kind == Classify(r[i].value)
    ensures GroupsInOrder(r)
    ensures KeysNumbered(r)
  {
    var t := Tokens(line);
    var lower := SortBy(OfKind(t, WordLower), le);
    var upper := SortBy(OfKind(t, WordUpper), le);
    var numbers := SortBy(OfKind(t, Number), NumberOrder());
    GroupsPartition(t);
    GroupsSizes(t);
    SortedGroupsKinds(t, le);
    LayoutFields(lower, upper, numbers);
    LayoutKinds(lower, upper, numbers);
    LayoutValues(lower, upper, numbers);
    LayoutKeys(lower, upper, numbers);
    Layout(lower, upper, numbers)
  }

  /** Each group of the result is the stable sort of that group's tokens:
      words by the caller's `localeCompare` order, numbers by value. */
  lemma CreateItemsGroups(line: string, le: (string, string) -> bool)
    ensures var r, t := CreateItems(line, le), Tokens(line);
      && ValuesOfKind(r, WordLower) == SortBy(OfKind(t, WordLower), le)
      && ValuesOfKind(r, WordUpper) == SortBy(OfKind(t, WordUpper), le)
      && ValuesOfKind(r, Number) == SortBy(OfKind(t, Number), NumberOrder())
  {
    var t := Tokens(line);
    LayoutGroups(SortBy(OfKind(t, WordLower), le), SortBy(OfKind(t, WordUpper), le),
      SortBy(OfKind(t, Number), NumberOrder()));
  }

  /** Each group of the result holds exactly the tokens of that group. */
  lemma CreateItemsGroupsPermute(line: string, le: (string, string) -> bool)
    ensures var r, t := CreateItems(line, le), Tokens(line);
      && multiset(ValuesOfKind(r, WordLower)) == multiset(OfKind(t, WordLower))
      && multiset(ValuesOfKind(r, WordUpper)) == multiset(OfKind(t, WordUpper))
      && multiset(ValuesOfKind(r, Number)) == multiset(OfKind(t, Number))
  {
    CreateItemsGroups(line, le);
  }

  /** The word groups are in ascending order under `le` when `le` is a total
      preorder, and the number group is in ascending numeric order. */
  lemma CreateItemsSorted(line: string, le: (string, string) -> bool)
    requires TotalPreorder(le)
    ensures SortedBy(ValuesOfKind(CreateItems(line, le), WordLower), le)
    ensures SortedBy(ValuesOfKind(CreateItems(line, le), WordUpper), le)
    ensures NumericallySorted(ValuesOfKind(CreateItems(line, le), Number))
  {
    var t := Tokens(line);
    CreateItemsGroups(line, le);
    SortBySorted(OfKind(t, WordLower), le);
    SortBySorted(OfKind(t, WordUpper), le);
    ByKeyIsTotalPreorder(NumberKey);
    SortBySorted(OfKind(t, Number), NumberOrder());
    NumberOrderSorted(SortBy(OfKind(t, Number), NumberOrder()));
  }

  /** Ascending by numeric value. */
  predicate NumericallySorted(s: seq<string>) {
    forall i, j :: 0 <= i < j < |s| ==> NumericValue(s[i]) <= NumericValue(s[j])
  }

  lemma NumberOrderSorted(s: seq<string>)
    requires SortedBy(s, NumberOrder())
    ensures NumericallySorted(s)
  {
    forall i, j | 0 <= i < j < |s| ensures NumericValue(s[i]) <= NumericValue(s[j]) {
      assert ByKey(NumberKey)(s[i], s[j]);
      assert NumberKey(s[i]) <= NumberKey(s[j]);
    }
  }

  /** Numbers of equal value keep their input order (the sort is stable). */
  lemma CreateItemsNumbersStable(line: string, le: (string, string) -> bool, v: nat)
    ensures WithKey(ValuesOfKind(CreateItems(line, le), Number), NumberKey, v)
         == WithKey(OfKind(Tokens(line), Number), NumberKey, v)
  {
    CreateItemsGroups(line, le);
    SortByKeyStable(OfKind(Tokens(line), Number), NumberKey, v);
  }

  /** The sorted groups still hold only tokens of their own kind. */
  lemma SortedGroupsKinds(t: seq<string>, le: (string, string) -> bool)
    ensures forall w :: w in SortBy(OfKind(t, WordLower), le) ==> Classify(w) == WordLower
    ensures forall w :: w in SortBy(OfKind(t, WordUpper), le) ==> Classify(w) == WordUpper
    ensures forall w :: w in SortBy(OfKind(t, Number), NumberOrder()) ==> Classify(w) == Number
  {
    forall w | w in SortBy(OfKind(t, WordLower), le) ensures Classify(w) == WordLower {
      assert w in multiset(OfKind(t, WordLower));
    }
    forall w | w in SortBy(OfKind(t, WordUpper), le) ensures Classify(w) == WordUpper {
      assert w in multiset(OfKind(t, WordUpper));
    }
    forall w | w in SortBy(OfKind(t, Number), NumberOrder()) ensures Classify(w) == Number {
      assert w in multiset(OfKind(t, Number));
    }
  }

  /** Lays out three sorted groups one after the other. */
  function Layout(lower: seq<string>, upper: seq<string>, numbers: seq<string>): seq<Item> {
    Label(lower, WordLower, 0) + Label(upper, WordUpper, |lower|) + Label(numbers, Number, |lower| + |upper|)
  }

  lemma LayoutFields(lower: seq<string>, upper: seq<string>, numbers: seq<string>)
    ensures |Layout(lower, upper, numbers)| == |lower| + |upper| + |numbers|
    ensures FreshAtPositions(Layout(lower, upper, numbers))
  {
    var a := Label(lower, WordLower, 0);
    var b := Label(upper, WordUpper, |lower|);
    var n := Label(numbers, Number, |lower| + |upper|);
    LabelFresh(a + b, n, numbers, Number);
    LabelFresh(a, b, upper, WordUpper);
    LabelFresh([], a, lower, WordLower);
    assert [] + a == a;
  }

  /** Appending a freshly labelled group right after `prefix` keeps every
      item at its own position. */
  lemma LabelFresh(prefix: seq<Item>, group: seq<Item>, words: seq<string>, kind: Kind)
    requires group == Label(words, kind, |prefix|)
    ensures FreshAtPositions(prefix) ==> FreshAtPositions(prefix + group)
  {
    var r := prefix + group;
    if FreshAtPositions(prefix) {
      forall i | 0 <= i < |r|
        ensures r[i].originalIndex == i && r[i].id == ItemId(i)
        ensures r[i].originalColor == DefaultColor && r[i].randomColor == None && r[i].clicks == 0
      {
        if i >= |prefix| {
          assert r[i] == group[i - |prefix|];
        }
      }
    }
  }

  lemma LayoutKinds(lower: seq<string>, upper: seq<string>, numbers: seq<string>)
    requires forall w :: w in lower ==> Classify(w) == WordLower
    requires forall w :: w in upper ==> Classify(w) == WordUpper
    requires forall w :: w in numbers ==> Classify(w) == Number
    ensures forall i :: 0 <= i < |Layout(lower, upper, numbers)| ==>
      Layout(lower, upper, numbers)[i].kind == Classify(Layout(lower, upper, numbers)[i].value)
    ensures GroupsInOrder(Layout(lower, upper, numbers))
  {
    var a := Label(lower, WordLower, 0);
    var b := Label(upper, WordUpper, |lower|);
    var n := Label(numbers, Number, |lower| + |upper|);
    var r := a + b + n;
    forall i | 0 <= i < |r|
      ensures r[i].kind == Classify(r[i].value)
      ensures Rank(r[i].kind) == if i < |a| then 0 else if i < |a| + |b| then 1 else 2
    {
      if i < |a| {
        assert r[i] == a[i];
        assert lower[i] in lower;
      } else if i < |a| + |b| {
        assert r[i] == b[i - |a|];
        assert upper[i - |a|] in upper;
      } else {
        assert r[i] == n[i - |a| - |b|];
        assert numbers[i - |a| - |b|] in numbers;
      }
    }
  }

  lemma LayoutValues(lower: seq<string>, upper: seq<string>, numbers: seq<string>)
    ensures Values(Layout(lower, upper, numbers)) == lower + upper + numbers
  {
    var a := Label(lower, WordLower, 0);
    var b := Label(upper, WordUpper, |lower|);
    var n := Label(numbers, Number, |lower| + |upper|);
    ValuesAppend(a, b);
    ValuesAppend(a + b, n);
    assert Values(a) == lower;
    assert Values(b) == upper;
    assert Values(n) == numbers;
  }

  lemma LayoutGroups(lower: seq<string>, upper: seq<string>, numbers: seq<string>)
    ensures ValuesOfKind(Layout(lower, upper, numbers), WordLower) == lower
    ensures ValuesOfKind(Layout(lower, upper, numbers), WordUpper) == upper
    ensures ValuesOfKind(Layout(lower, upper, numbers), Number) == numbers
  {
    var a := Label(lower, WordLower, 0);
    var b := Label(upper, WordUpper, |lower|);
    var n := Label(numbers, Number, |lower| + |upper|);
    ValuesOfKindAppend(a + b, n);
    ValuesOfKindAppend(a, b);
    LabelValuesOfKind(lower, WordLower, 0);
    LabelValuesOfKind(upper, WordUpper, |lower|);
    LabelValuesOfKind(numbers, Number, |lower| + |upper|);
  }

  /** A labelled group holds its words under its own kind and nothing under
      the others. */
  lemma LabelValuesOfKind(words: seq<string>, kind: Kind, start: nat)
    ensures forall k :: ValuesOfKind(Label(words, kind, start), k) == if k == kind then words else []
  {
    var g := Label(words, kind, start);
    ValuesOfKindUniform(g, kind);
    assert Values(g) == words;
  }

  lemma ValuesAppend(a: seq<Item>, b: seq<Item>)
    ensures Values(a + b) == Values(a) + Values(b)
  {
  }

  lemma LayoutKeys(lower: seq<string>, upper: seq<string>, numbers: seq<string>)
    ensures KeysNumbered(Layout(lower, upper, numbers))
  {
    var a := Label(lower, WordLower, 0);
    var b := Label(upper, WordUpper, |lower|);
    var n := Label(numbers, Number, |lower| + |upper|);
    KeysAfter([], a, lower, WordLower);
    assert [] + a == a;
    KeysAfter(a, b, upper, WordUpper);
    KeysAfter(a + b, n, numbers, Number);
  }

  /** A freshly labelled group placed after items of other groups is
      numbered from 1. */
  lemma KeysAfter(prefix: seq<Item>, group: seq<Item>, words: seq<string>, kind: Kind)
    requires group == Label(words, kind, |prefix|)
    requires forall i :: 0 <= i < |prefix| ==> prefix[i].kind != kind
    ensures KeysNumbered(prefix) ==> KeysNumbered(prefix + group)
  {
    var r := prefix + group;
    if KeysNumbered(prefix) {
      forall i | 0 <= i < |r|
        ensures r[i].key == [Prefix(r[i].kind)] + NatToString(CountKind(r[..i], r[i].kind) + 1)
      {
        if i < |prefix| {
          assert r[..i] == prefix[..i];
          assert r[i] == prefix[i];
        } else {
          KeyInGroup(prefix, group, words, kind, i - |prefix|);
        }
      }
    }
  }

  /** The `j`-th item of a group placed after other groups is its group's
      `j + 1`-th. */
  lemma KeyInGroup(prefix: seq<Item>, group: seq<Item>, words: seq<string>, kind: Kind, j: nat)
    requires group == Label(words, kind, |prefix|) && j < |group|
    requires forall i :: 0 <= i < |prefix| ==> prefix[i].kind != kind
    ensures var r := prefix + group; var i := |prefix| + j;
      r[i].key == [Prefix(r[i].kind)] + NatToString(CountKind(r[..i], r[i].kind) + 1)
  {
    var r := prefix + group;
    var i := |prefix| + j;
    assert r[i] == group[j];
    assert r[..i] == prefix + group[..j];
    CountAppend(prefix, group[..j], kind);
    CountOfOtherKind(prefix, kind);
    CountOfSameKind(group[..j], kind);
  }

  lemma {:induction false} CountAppend(a: seq<Item>, b: seq<Item>, k: Kind)
    ensures CountKind(a + b, k) == CountKind(a, k) + CountKind(b, k)
  {
    if |a| > 0 {
      assert (a + b)[1..] == a[1..] + b;
      CountAppend(a[1..], b, k);
    } else {
      assert a + b == b;
    }
  }

  lemma {:induction false} CountOfSameKind(s: seq<Item>, k: Kind)
    requires forall i :: 0 <= i < |s| ==> s[i].kind == k
    ensures CountKind(s, k) == |s|
  {
    if |s| > 0 {
      CountOfSameKind(s[1..], k);
    }
  }

  lemma {:induction false} CountOfOtherKind(s: seq<Item>, k: Kind)
    requires forall i :: 0 <= i < |s| ==> s[i].kind != k
    ensures CountKind(s, k) == 0
  {
    if |s| > 0 {
      CountOfOtherKind(s[1..], k);
    }
  }

  lemma {:induction false} ValuesOfKindAppend(a: seq<Item>, b: seq<Item>)
    ensures forall k :: ValuesOfKind(a + b, k) == ValuesOfKind(a, k) + ValuesOfKind(b, k)
  {
    if |a| > 0 {
      assert (a + b)[1..] == a[1..] + b;
      ValuesOfKindAppend(a[1..], b);
    } else {
      assert a + b == b;
    }
  }

  lemma {:induction false} ValuesOfKindUniform(s: seq<Item>, kind: Kind)
    requires forall j :: 0 <= j < |s| ==> s[j].kind == kind
    ensures forall k :: ValuesOfKind(s, k) == if k == kind then Values(s) else []
  {
    if |s| > 0 {
      ValuesOfKindUniform(s[1..], kind);
      assert Values(s) == [s[0].value] + Values(s[1..]);
    }
  }
}
