/** The widget's board: the registry of items built by the last accepted
    line, the source container (pills in their original order), the
    interactive container (pills placed freely, coloured, clickable), and the
    click summary and output log, with the three things a user can do: submit
    a line, drop a pill on a container, click a pill. */
module Board {
  import opened Wrappers
  import opened Text
  import opened Sorting
  import opened Items
  import opened Summary

  /** The two drop targets: the source block, where pills start, and the
      interactive block. */
  datatype Container = Source | Interactive

  /** A pill's offset inside the interactive block, in pixels. */
  datatype Point = Point(left: real, top: real)

  /** How a pill is drawn: its background colour and, in the interactive
      block, its offset. */
  datatype Pill = Pill(color: Color, at: Option<Point>)

  /** `items` is indexed by original index; `source` and `interactive` list
      the indices of the pills each container holds, in document order. */
  datatype Board = Board(
    items: seq<Item>,
    source: seq<nat>,
    interactive: seq<nat>,
    pills: seq<Pill>,
    log: seq<Span>,
    info: string)

  /** The message of the alert shown for an empty line. */
  const EmptyLineAlert: string := "Введите строку со словами, разделёнными тире \"-\""

  // ---------------------------------------------------------------------
  // Random colours
  // ---------------------------------------------------------------------

  /** The three draws of `Math.floor(Math.random() * 155)` behind a colour. */
  datatype Draw = Draw(r: nat, g: nat, b: nat)

  predicate ValidDraw(d: Draw) {
    d.r < 155 && d.g < 155 && d.b < 155
  }

  /** `randColor()`: `rgb(R,G,B)` with every channel between 100 and 254. */
  function RandColor(d: Draw): (c: Color)
    requires ValidDraw(d)
    ensures |c| > 0
  {
    "rgb(" + NatToString(100 + d.r) + "," + NatToString(100 + d.g) + "," + NatToString(100 + d.b) + ")"
  }

  /** Different draws give different colours: each channel is written with
      exactly three digits, so the colour string determines every draw. */
  lemma RandColorInjective(d: Draw, e: Draw)
    requires ValidDraw(d) && ValidDraw(e)
    requires RandColor(d) == RandColor(e)
    ensures d == e
  {
    ChannelsOf(d);
    ChannelsOf(e);
    NatToStringInjective(100 + d.r, 100 + e.r);
    NatToStringInjective(100 + d.g, 100 + e.g);
    NatToStringInjective(100 + d.b, 100 + e.b);
  }

  lemma ChannelsOf(d: Draw)
    requires ValidDraw(d)
    ensures |RandColor(d)| == 16
    ensures RandColor(d)[4..7] == NatToString(100 + d.r)
    ensures RandColor(d)[8..11] == NatToString(100 + d.g)
    ensures RandColor(d)[12..15] == NatToString(100 + d.b)
  {
    var r, g, b := NatToString(100 + d.r), NatToString(100 + d.g), NatToString(100 + d.b);
    ThreeDigits(100 + d.r);
    ThreeDigits(100 + d.g);
    ThreeDigits(100 + d.b);
    RgbSlices(r, g, b);
  }

  /** Where the three channels sit in `rgb(r,g,b)` when each has three
      digits. */
  lemma RgbSlices(r: string, g: string, b: string)
    requires |r| == 3 && |g| == 3 && |b| == 3
    ensures var c := "rgb(" + r + "," + g + "," + b + ")";
      |c| == 16 && c[4..7] == r && c[8..11] == g && c[12..15] == b
  {
    var c := "rgb(" + r + "," + g + "," + b + ")";
    assert c == "rgb(" + r + ("," + g + "," + b + ")");
    assert c[4..7] == r;
    assert c[8..11] == g;
    assert c[12..15] == b;
  }

  /** A colour the widget treats as set: JavaScript's truthiness of a string
      or `null`. */
  predicate Truthy(c: Option<Color>) {
    c.Some? && c.value != ""
  }

  /** The colour of a clicked value in the log, `randomColor || originalColor`. */
  function LogColor(o: Item): (c: Color)
    ensures Truthy(o.randomColor) ==> c == o.randomColor.value
    ensures !Truthy(o.randomColor) ==> c == o.originalColor
  {
    if Truthy(o.randomColor) then o.randomColor.value else o.originalColor
  }

  // ---------------------------------------------------------------------
  // Placing a pill in the interactive block
  // ---------------------------------------------------------------------

  /** What the drop handler measures: the cursor, the interactive block's
      bounding box, and the pill's rendered size (0 when not laid out). */
  datatype Geometry = Geometry(
    clientX: real, clientY: real,
    rectLeft: real, rectTop: real, rectWidth: real, rectHeight: real,
    offsetWidth: real, offsetHeight: real)

  /** `x || d` for a number: `d` when `x` is zero. */
  function OrDefault(x: real, d: real): real {
    if x == 0.0 then d else x
  }

  /** `Math.max(0, Math.min(v, hi))`. */
  function Clamp(v: real, hi: real): (r: real)
    ensures r >= 0.0
    ensures hi >= 0.0 ==> r <= hi
    ensures hi >= 0.0 ==> (r == v <==> 0.0 <= v <= hi)
    ensures hi < 0.0 ==> r == 0.0
    ensures v < 0.0 ==> r == 0.0
    ensures hi >= 0.0 && v > hi ==> r == hi
  {
    var m := if v < hi then v else hi;
    if m > 0.0 then m else 0.0
  }

  /** `placeElementWithinBlock2`: centre the pill on the cursor, then pull it
      back inside the block. */
  function Place(g: Geometry): (p: Point)
    ensures 0.0 <= p.left && 0.0 <= p.top
  {
    var w := OrDefault(g.offsetWidth, 140.0);
    var h := OrDefault(g.offsetHeight, 42.0);
    Point(Clamp(g.clientX - g.rectLeft - w / 2.0, g.rectWidth - w),
          Clamp(g.clientY - g.rectTop - h / 2.0, g.rectHeight - h))
  }

  /** A pill that fits in the block ends up entirely inside it: centred on
      the cursor when that already keeps it inside, against the left (top)
      edge when the cursor is too far left (up), against the right (bottom)
      edge when it is too far right (down). A pill wider (taller) than the
      block is put at the left (top) edge. */
  lemma PlaceInside(g: Geometry)
    ensures var p, w, h := Place(g), OrDefault(g.offsetWidth, 140.0), OrDefault(g.offsetHeight, 42.0);
      && p.left >= 0.0 && p.top >= 0.0
      && (w <= g.rectWidth ==> p.left + w <= g.rectWidth)
      && (h <= g.rectHeight ==> p.top + h <= g.rectHeight)
      && (w > g.rectWidth ==> p.left == 0.0)
      && (h > g.rectHeight ==> p.top == 0.0)
      && (0.0 <= g.clientX - g.rectLeft - w / 2.0 <= g.rectWidth - w ==> p.left == g.clientX - g.rectLeft - w / 2.0)
      && (0.0 <= g.clientY - g.rectTop - h / 2.0 <= g.rectHeight - h ==> p.top == g.clientY - g.rectTop - h / 2.0)
      && (g.clientX - g.rectLeft - w / 2.0 < 0.0 ==> p.left == 0.0)
      && (g.clientY - g.rectTop - h / 2.0 < 0.0 ==> p.top == 0.0)
      && (w <= g.rectWidth && g.clientX - g.rectLeft - w / 2.0 > g.rectWidth - w ==> p.left == g.rectWidth - w)
      && (h <= g.rectHeight && g.clientY - g.rectTop - h / 2.0 > g.rectHeight - h ==> p.top == g.rectHeight - h)
  {
  }

  // ---------------------------------------------------------------------
  // Containers
  // ---------------------------------------------------------------------

  /** `s` without any occurrence of `x`, in order. */
  function Remove(s: seq<nat>, x: nat): (r: seq<nat>)
    ensures multiset(r) == multiset(s)[x := 0]
  {
    if |s| == 0 then []
    else
      assert s == [s[0]] + s[1..];
      (if s[0] == x then [] else [s[0]]) + Remove(s[1..], x)
  }

  /** Taking out a pill that is not there changes nothing. */
  lemma {:induction false} RemoveMissing(s: seq<nat>, x: nat)
    requires forall j :: 0 <= j < |s| ==> s[j] != x
    ensures Remove(s, x) == s
  {
    if |s| > 0 {
      assert Remove(s, x) == [s[0]] + Remove(s[1..], x);
      RemoveMissing(s[1..], x);
    }
  }

  /** Taking out a pill that occurs only at position `k` closes the gap it
      leaves: the pills before it and the pills after it stay as they were. */
  lemma {:induction false} RemoveAt(s: seq<nat>, k: nat)
    requires k < |s| && forall j :: 0 <= j < |s| && j != k ==> s[j] != s[k]
    ensures Remove(s, s[k]) == s[..k] + s[k + 1..]
  {
    if k == 0 {
      RemoveMissing(s[1..], s[0]);
    } else {
      UniqueInTail(s, k);
      RemoveAt(s[1..], k - 1);
      Regroup(s, k);
    }
  }

  lemma UniqueInTail(s: seq<nat>, k: nat)
    requires 0 < k < |s| && forall j :: 0 <= j < |s| && j != k ==> s[j] != s[k]
    ensures s[1..][k - 1] == s[k] && s[0] != s[k]
    ensures forall j :: 0 <= j < |s[1..]| && j != k - 1 ==> s[1..][j] != s[1..][k - 1]
  {
  }

  lemma Regroup(s: seq<nat>, k: nat)
    requires 0 < k < |s|
    ensures [s[0]] + (s[1..][..k - 1] + s[1..][k..]) == s[..k] + s[k + 1..]
  {
    assert s[..k] == [s[0]] + s[1..k];
  }

  /** Two positions holding the same pill count twice. */
  lemma TwoCopies(s: seq<nat>, j: nat, k: nat)
    requires j < k < |s|
    ensures multiset(s)[s[j]] >= 1 + (if s[j] == s[k] then 1 else 0)
  {
    var front, back := s[..k], s[k + 1..];
    assert s == front + [s[k]] + back;
    assert front[j] == s[j];
    assert multiset(s) == multiset(front) + multiset{s[k]} + multiset(back);
  }

  /** A pill that occurs at most once occurs at no other position. */
  lemma OnceAt(s: seq<nat>, k: nat)
    requires k < |s| && multiset(s)[s[k]] <= 1
    ensures forall j :: 0 <= j < |s| && j != k ==> s[j] != s[k]
  {
    forall j | 0 <= j < |s| && j != k
      ensures s[j] != s[k]
    {
      if j < k {
        TwoCopies(s, j, k);
      } else {
        TwoCopies(s, k, j);
      }
    }
  }

  /** A pill that occurs at most once is either absent, and removing it
      changes nothing, or sits at one place, and removing it closes the gap
      with the other pills in their order. */
  lemma RemoveOrder(s: seq<nat>, x: nat)
    requires multiset(s)[x] <= 1
    ensures x !in multiset(s) ==> Remove(s, x) == s
    ensures x in multiset(s) ==> exists k :: 0 <= k < |s| && s[k] == x && Remove(s, x) == s[..k] + s[k + 1..]
  {
    if x in multiset(s) {
      var k :| 0 <= k < |s| && s[k] == x;
      OnceAt(s, k);
      RemoveAt(s, k);
    } else {
      forall j | 0 <= j < |s| ensures s[j] != x {
        assert s[j] in multiset(s);
      }
      RemoveMissing(s, x);
    }
  }

  /** The order `reorderBlock3` sorts by: the original index, which is the
      item's position in the registry. */
  function IndexKey(x: nat): int {
    x
  }

  /** `reorderBlock3`: the source block's pills sorted by original index. */
  function Reorder(s: seq<nat>): (r: seq<nat>)
    ensures multiset(r) == multiset(s)
  {
    SortBy(s, ByKey(IndexKey))
  }

  /** Strictly increasing. */
  predicate Ascending(s: seq<nat>) {
    forall i, j :: 0 <= i < j < |s| ==> s[i] < s[j]
  }

  /** Reordering a container without repeated pills puts them in strictly
      increasing order of original index. */
  lemma ReorderAscending(s: seq<nat>)
    requires forall x :: multiset(s)[x] <= 1
    ensures Ascending(Reorder(s))
  {
    var r := Reorder(s);
    ByKeyIsTotalPreorder(IndexKey);
    SortBySorted(s, ByKey(IndexKey));
    forall i, j | 0 <= i < j < |r| ensures r[i] < r[j] {
      assert ByKey(IndexKey)(r[i], r[j]);
      assert IndexKey(r[i]) <= IndexKey(r[j]);
      if r[i] == r[j] {
        TwiceCounted(r, i, j);
      }
    }
  }

  /** Two positions holding the same value count it twice. */
  lemma TwiceCounted(s: seq<nat>, i: nat, j: nat)
    requires i < j < |s| && s[i] == s[j]
    ensures multiset(s)[s[i]] >= 2
  {
    assert s == s[..j] + s[j..];
    assert s[i] in s[..j];
    assert s[j] in s[j..];
  }

  /** The indices `0 .. n - 1`, in order. */
  function Indices(n: nat): (r: seq<nat>)
    ensures |r| == n
    ensures forall i :: 0 <= i < n ==> r[i] == i
  {
    seq(n, i requires 0 <= i => i)
  }

  lemma {:induction false} IndicesCount(n: nat, x: nat)
    ensures multiset(Indices(n))[x] == if x < n then 1 else 0
  {
    if n > 0 {
      IndicesCount(n - 1, x);
      assert Indices(n) == Indices(n - 1) + [n - 1];
    }
  }

  /** The item registered under `id`, if any: `items[id]`. */
  function Lookup(items: seq<Item>, id: string): (r: Option<nat>)
    ensures r.Some? ==> r.value < |items| && items[r.value].id == id
    ensures r.None? ==> forall i :: 0 <= i < |items| ==> items[i].id != id
  {
    if |items| == 0 then None
    else if items[0].id == id then Some(0)
    else
      match Lookup(items[1..], id)
      case None => None
      case Some(k) => Some(k + 1)
  }

  // ---------------------------------------------------------------------
  // The invariant
  // ---------------------------------------------------------------------

  /** Item `i` sits at position `i` under the identifier `item-i`. */
  predicate Registered(b: Board) {
    && |b.pills| == |b.items|
    && forall i :: 0 <= i < |b.items| ==> b.items[i].originalIndex == i && b.items[i].id == ItemId(i)
  }

  /** Every pill is in exactly one container. */
  predicate Partitioned(b: Board) {
    multiset(b.source) + multiset(b.interactive) == multiset(Indices(|b.items|))
  }

  /** A pill in the source block has its original colour and no offset; a
      pill in the interactive block has its random colour and an offset. */
  predicate PillsShown(b: Board)
    requires |b.pills| == |b.items|
  {
    forall i :: 0 <= i < |b.items| ==>
      && (i in multiset(b.source) ==> b.pills[i] == Pill(b.items[i].originalColor, None))
      && (i in multiset(b.interactive) ==>
            Truthy(b.items[i].randomColor) && b.pills[i].color == b.items[i].randomColor.value && b.pills[i].at.Some?)
  }

  /** A random colour, once there, is a real colour; a clicked item has one. */
  predicate ColoursSet(b: Board) {
    forall i :: 0 <= i < |b.items| ==>
      && (b.items[i].randomColor.Some? ==> Truthy(b.items[i].randomColor))
      && (b.items[i].clicks > 0 ==> Truthy(b.items[i].randomColor))
  }

  /** The board's invariant. */
  predicate Wf(b: Board) {
    && Registered(b)
    && Partitioned(b)
    && Ascending(b.source)
    && PillsShown(b)
    && ColoursSet(b)
    && b.info == ClickSummary(b.items)
  }

  // ---------------------------------------------------------------------
  // Submitting a line
  // ---------------------------------------------------------------------

  /** The board right after `createItemsFromLine`: every pill in the source
      block in registry order, nothing logged, the placeholder summary. */
  function Initial(items: seq<Item>): Board {
    Board(items, Indices(|items|), [],
      seq(|items|, i requires 0 <= i < |items| => Pill(items[i].originalColor, None)),
      [], Placeholder)
  }

  /** What submitting a line leads to: the next board and the alert shown,
      if any. */
  datatype Submitted = Submitted(board: Board, alert: Option<string>)

  /** The parse button: an empty or all-whitespace line raises the alert and
      leaves the board as it was; any other line replaces the board with the
      items of the trimmed line. */
  function Submit(b: Board, line: string, le: (string, string) -> bool): (r: Submitted)
    ensures r.alert.Some? <==> AllWhitespace(line)
    ensures r.alert.Some? ==> r.alert.value == EmptyLineAlert && r.board == b
    ensures r.alert.None? ==> r.board.items == CreateItems(Trim(line), le) && r.board.interactive == []
    ensures r.alert.None? ==>
      && r.board.source == Indices(|r.board.items|)
      && |r.board.pills| == |r.board.items|
      && (forall k :: 0 <= k < |r.board.pills| ==> r.board.pills[k] == Pill(DefaultColor, None))
      && r.board.log == [] && r.board.info == Placeholder
  {
    if Trim(line) == [] then Submitted(b, Some(EmptyLineAlert))
    else Submitted(Initial(CreateItems(Trim(line), le)), None)
  }

  /** An accepted line yields one item per token of the line as typed, and
      the new board satisfies the invariant. */
  lemma SubmitAccepted(b: Board, line: string, le: (string, string) -> bool)
    requires !AllWhitespace(line)
    ensures var nb := Submit(b, line, le).board;
      && |nb.items| == |Tokens(line)|
      && multiset(Values(nb.items)) == multiset(Tokens(line))
      && Wf(nb)
  {
    TokensOfTrimmed(line);
    InitialWf(CreateItems(Trim(line), le));
  }

  lemma InitialWf(items: seq<Item>)
    requires FreshAtPositions(items)
    ensures Wf(Initial(items))
  {
    var b := Initial(items);
    var n := |items|;
    forall x ensures multiset(b.source)[x] == multiset(Indices(n))[x] {
    }
    assert multiset(b.interactive) == multiset{};
    forall i | 0 <= i < n ensures i !in multiset(b.interactive) {
    }
    NoClicksSummary(items);
  }

  lemma NoClicksSummary(items: seq<Item>)
    requires forall i :: 0 <= i < |items| ==> items[i].clicks == 0
    ensures ClickSummary(items) == Placeholder
  {
    SummaryIsPlaceholder(items);
  }

  // ---------------------------------------------------------------------
  // Dropping a pill
  // ---------------------------------------------------------------------

  /** The drop handler. An identifier that names no item changes nothing.
      Dropping on the interactive block gives the item a random colour if it
      has none yet, shows that colour and places the pill; dropping on the
      source block shows the original colour, clears the offset and puts the
      block back in original order. */
  function Drop(b: Board, id: string, target: Container, draw: Draw, g: Geometry): (r: Board)
    requires ValidDraw(draw)
    requires |b.pills| == |b.items|
    ensures |r.items| == |b.items| && |r.pills| == |b.pills|
    ensures r.log == b.log && r.info == b.info
    ensures Lookup(b.items, id).None? ==> r == b
  {
    match Lookup(b.items, id)
    case None => b
    case Some(i) =>
      match target
      case Interactive => ToInteractive(b, i, draw, g)
      case Source => ToSource(b, i)
  }

  /** Item `i`'s pill dropped on the interactive block. */
  function ToInteractive(b: Board, i: nat, draw: Draw, g: Geometry): (r: Board)
    requires ValidDraw(draw) && i < |b.items| && |b.pills| == |b.items|
    ensures |r.items| == |b.items| && |r.pills| == |b.pills|
  {
    var o := b.items[i];
    var o' := if Truthy(o.randomColor) then o else o.(randomColor := Some(RandColor(draw)));
    b.(items := b.items[i := o'],
       source := Remove(b.source, i),
       interactive := Remove(b.interactive, i) + [i],
       pills := b.pills[i := Pill(o'.randomColor.value, Some(Place(g)))])
  }

  /** Item `i`'s pill dropped on the source block. */
  function ToSource(b: Board, i: nat): (r: Board)
    requires i < |b.items| && |b.pills| == |b.items|
    ensures |r.items| == |b.items| && |r.pills| == |b.pills|
  {
    b.(source := Reorder(Remove(b.source, i) + [i]),
       interactive := Remove(b.interactive, i),
       pills := b.pills[i := Pill(b.items[i].originalColor, None)])
  }

  /** A drop never changes a random colour that is already set, and a drop
      on the interactive block always leaves one set; clicks, keys and values
      never change. Only a drop on the interactive block of an item without a
      colour changes the registry, and then only that item's colour, to the
      colour of the draw. */
  lemma DropColours(b: Board, id: string, target: Container, draw: Draw, g: Geometry)
    requires ValidDraw(draw) && Wf(b)
    ensures var r := Drop(b, id, target, draw, g);
      && (forall j :: 0 <= j < |b.items| && b.items[j].randomColor.Some? ==>
            r.items[j].randomColor == b.items[j].randomColor)
      && (forall j :: 0 <= j < |b.items| ==>
            r.items[j].clicks == b.items[j].clicks && r.items[j].key == b.items[j].key
            && r.items[j].value == b.items[j].value)
      && (target == Interactive && Lookup(b.items, id).Some? ==>
            r.items[Lookup(b.items, id).value].randomColor.Some?)
      && (target == Source ==> r.items == b.items)
      && (forall j :: 0 <= j < |b.items| && Lookup(b.items, id) != Some(j) ==> r.items[j] == b.items[j])
      && (target == Interactive && Lookup(b.items, id).Some? ==>
            var i := Lookup(b.items, id).value;
            && r.items[i] == b.items[i].(randomColor := r.items[i].randomColor)
            && (b.items[i].randomColor.None? ==> r.items[i].randomColor == Some(RandColor(draw))))
  {
  }

  /** After a drop on the interactive block the pill is there exactly once,
      as the block's last child, and nowhere else; it is shown in its random
      colour at the clamped cursor position; the source block keeps its other
      pills in increasing original index. The other pills of the interactive
      block keep their order, and no other pill changes colour or offset. */
  lemma DropOnInteractive(b: Board, id: string, draw: Draw, g: Geometry)
    requires ValidDraw(draw) && Wf(b) && Lookup(b.items, id).Some?
    ensures var r, i := Drop(b, id, Interactive, draw, g), Lookup(b.items, id).value;
      && multiset(r.interactive) == multiset(b.interactive)[i := 1]
      && |r.interactive| > 0 && r.interactive[|r.interactive| - 1] == i
      && i !in multiset(r.source)
      && multiset(r.source) == multiset(b.source)[i := 0]
      && Ascending(r.source)
      && Truthy(r.items[i].randomColor)
      && r.pills[i] == Pill(r.items[i].randomColor.value, Some(Place(g)))
      && (forall j :: 0 <= j < |b.pills| && j != i ==> r.pills[j] == b.pills[j])
      && (i !in multiset(b.interactive) ==> r.interactive == b.interactive + [i])
      && (i in multiset(b.interactive) ==>
            exists k :: 0 <= k < |b.interactive| && b.interactive[k] == i
              && r.interactive == b.interactive[..k] + b.interactive[k + 1..] + [i])
  {
    var i := Lookup(b.items, id).value;
    assert Drop(b, id, Interactive, draw, g) == ToInteractive(b, i, draw, g);
    AtMostOnce(b, i);
    ToInteractiveMoves(b, i, draw, g);
    ToInteractiveFrame(b, i, draw, g);
  }

  lemma ToInteractiveMoves(b: Board, i: nat, draw: Draw, g: Geometry)
    requires ValidDraw(draw) && i < |b.items| && |b.pills| == |b.items|
    requires Ascending(b.source) && multiset(b.interactive)[i] <= 1
    ensures var r := ToInteractive(b, i, draw, g);
      && multiset(r.interactive) == multiset(b.interactive)[i := 1]
      && |r.interactive| > 0 && r.interactive[|r.interactive| - 1] == i
      && i !in multiset(r.source)
      && multiset(r.source) == multiset(b.source)[i := 0]
      && Ascending(r.source)
      && Truthy(r.items[i].randomColor)
      && r.pills[i] == Pill(r.items[i].randomColor.value, Some(Place(g)))
  {
    assert multiset(Remove(b.interactive, i) + [i]) == multiset(b.interactive)[i := 0] + multiset{i};
    RemoveMembers(b.source, i);
    AscendingRemove(b.source, i);
  }

  lemma ToInteractiveFrame(b: Board, i: nat, draw: Draw, g: Geometry)
    requires ValidDraw(draw) && i < |b.items| && |b.pills| == |b.items| && multiset(b.interactive)[i] <= 1
    ensures var r := ToInteractive(b, i, draw, g);
      && (forall j :: 0 <= j < |b.pills| && j != i ==> r.pills[j] == b.pills[j])
      && (i !in multiset(b.interactive) ==> r.interactive == b.interactive + [i])
      && (i in multiset(b.interactive) ==>
            exists k :: 0 <= k < |b.interactive| && b.interactive[k] == i
              && r.interactive == b.interactive[..k] + b.interactive[k + 1..] + [i])
  {
    var r := ToInteractive(b, i, draw, g);
    RemoveOrder(b.interactive, i);
    if i in multiset(b.interactive) {
      var k :| 0 <= k < |b.interactive| && b.interactive[k] == i
        && Remove(b.interactive, i) == b.interactive[..k] + b.interactive[k + 1..];
      assert r.interactive == b.interactive[..k] + b.interactive[k + 1..] + [i];
    }
  }

  /** Under the invariant, a pill occurs at most once in the interactive
      block. */
  lemma AtMostOnce(b: Board, i: nat)
    requires Partitioned(b) && i < |b.items|
    ensures multiset(b.interactive)[i] <= 1
  {
    IndicesCount(|b.items|, i);
    assert (multiset(b.source) + multiset(b.interactive))[i] == 1;
  }

  /** After a drop on the source block the pill is there, shown in its
      original colour without an offset, and the block holds what it held
      before plus that pill, in increasing original index. The interactive
      block loses only that pill, the others keeping their order, and no
      other pill changes colour or offset. */
  lemma DropOnSource(b: Board, id: string, draw: Draw, g: Geometry)
    requires ValidDraw(draw) && Wf(b) && Lookup(b.items, id).Some?
    ensures var r, i := Drop(b, id, Source, draw, g), Lookup(b.items, id).value;
      && Ascending(r.source)
      && multiset(r.source) == multiset(b.source)[i := 1]
      && i !in multiset(r.interactive)
      && r.pills[i] == Pill(b.items[i].originalColor, None)
      && (forall j :: 0 <= j < |b.pills| && j != i ==> r.pills[j] == b.pills[j])
      && (i !in multiset(b.interactive) ==> r.interactive == b.interactive)
      && (i in multiset(b.interactive) ==>
            exists k :: 0 <= k < |b.interactive| && b.interactive[k] == i
              && r.interactive == b.interactive[..k] + b.interactive[k + 1..])
  {
    var i := Lookup(b.items, id).value;
    MoveToSource(b.source, b.interactive, |b.items|, i);
    AtMostOnce(b, i);
    ToSourceFrame(b, i);
  }

  lemma ToSourceFrame(b: Board, i: nat)
    requires i < |b.items| && |b.pills| == |b.items| && multiset(b.interactive)[i] <= 1
    ensures var r := ToSource(b, i);
      && (forall j :: 0 <= j < |b.pills| && j != i ==> r.pills[j] == b.pills[j])
      && (i !in multiset(b.interactive) ==> r.interactive == b.interactive)
      && (i in multiset(b.interactive) ==>
            exists k :: 0 <= k < |b.interactive| && b.interactive[k] == i
              && r.interactive == b.interactive[..k] + b.interactive[k + 1..])
  {
    RemoveOrder(b.interactive, i);
  }

  lemma DropWf(b: Board, id: string, target: Container, draw: Draw, g: Geometry)
    requires ValidDraw(draw) && Wf(b)
    ensures Wf(Drop(b, id, target, draw, g))
  {
    match Lookup(b.items, id)
    case None =>
    case Some(i) =>
      match target
      case Interactive => ToInteractiveWf(b, i, draw, g);
      case Source => ToSourceWf(b, i);
  }

  lemma ToInteractiveWf(b: Board, i: nat, draw: Draw, g: Geometry)
    requires ValidDraw(draw) && Wf(b) && i < |b.items|
    ensures Wf(ToInteractive(b, i, draw, g))
  {
    ToInteractiveBlocks(b, i, draw, g);
    ToInteractiveShown(b, i, draw, g);
    ToInteractiveRegistry(b, i, draw, g);
  }

  lemma ToInteractiveRegistry(b: Board, i: nat, draw: Draw, g: Geometry)
    requires ValidDraw(draw) && Registered(b) && b.info == ClickSummary(b.items) && i < |b.items|
    ensures var r := ToInteractive(b, i, draw, g); Registered(r) && r.info == ClickSummary(r.items)
  {
    var r := ToInteractive(b, i, draw, g);
    SummaryPointwise(b.items, r.items);
  }

  lemma ToInteractiveBlocks(b: Board, i: nat, draw: Draw, g: Geometry)
    requires ValidDraw(draw) && Partitioned(b) && Ascending(b.source) && i < |b.items| && |b.pills| == |b.items|
    ensures Partitioned(ToInteractive(b, i, draw, g)) && Ascending(ToInteractive(b, i, draw, g).source)
  {
    MoveToInteractive(b.source, b.interactive, |b.items|, i);
    AscendingRemove(b.source, i);
  }

  lemma ToInteractiveShown(b: Board, i: nat, draw: Draw, g: Geometry)
    requires ValidDraw(draw) && i < |b.items| && |b.pills| == |b.items|
    requires PillsShown(b) && ColoursSet(b)
    ensures PillsShown(ToInteractive(b, i, draw, g)) && ColoursSet(ToInteractive(b, i, draw, g))
  {
    var r := ToInteractive(b, i, draw, g);
    RemoveMembers(b.source, i);
    RemoveMembers(b.interactive, i);
    assert multiset(r.interactive) == multiset(Remove(b.interactive, i)) + multiset{i};
    forall j | 0 <= j < |r.items|
      ensures j in multiset(r.source) ==> r.pills[j] == Pill(r.items[j].originalColor, None)
      ensures j in multiset(r.interactive) ==>
        Truthy(r.items[j].randomColor) && r.pills[j].color == r.items[j].randomColor.value && r.pills[j].at.Some?
    {
      if j != i {
        assert r.items[j] == b.items[j] && r.pills[j] == b.pills[j];
      }
    }
    ColoursAfterInteractive(b, i, draw, g);
  }

  lemma ColoursAfterInteractive(b: Board, i: nat, draw: Draw, g: Geometry)
    requires ValidDraw(draw) && i < |b.items| && |b.pills| == |b.items|
    requires ColoursSet(b)
    ensures ColoursSet(ToInteractive(b, i, draw, g))
  {
  }

  lemma ToSourceWf(b: Board, i: nat)
    requires Wf(b) && i < |b.items|
    ensures Wf(ToSource(b, i))
  {
    MoveToSource(b.source, b.interactive, |b.items|, i);
    ToSourceShown(b, i);
  }

  lemma ToSourceShown(b: Board, i: nat)
    requires i < |b.items| && |b.pills| == |b.items|
    requires PillsShown(b)
    ensures PillsShown(ToSource(b, i))
  {
    var t: seq<nat> := Remove(b.source, i) + [i];
    RemoveMembers(b.source, i);
    RemoveMembers(b.interactive, i);
    assert multiset(Reorder(t)) == multiset(Remove(b.source, i)) + multiset{i};
  }

  /** Removing `x` takes out `x` and nothing else. */
  lemma RemoveMembers(s: seq<nat>, x: nat)
    ensures x !in multiset(Remove(s, x))
    ensures forall j :: j != x ==> (j in multiset(Remove(s, x)) <==> j in multiset(s))
  {
  }

  /** Moving a pill into the interactive block keeps every pill in exactly
      one block. */
  lemma MoveToInteractive(src: seq<nat>, inter: seq<nat>, n: nat, i: nat)
    requires multiset(src) + multiset(inter) == multiset(Indices(n)) && i < n
    ensures multiset(Remove(src, i)) + multiset(Remove(inter, i) + [i]) == multiset(Indices(n))
  {
    assert multiset(Remove(inter, i) + [i]) == multiset(inter)[i := 0] + multiset{i};
    forall x: nat ensures (multiset(Remove(src, i)) + multiset(Remove(inter, i) + [i]))[x] == multiset(Indices(n))[x] {
      IndicesCount(n, x);
    }
  }

  /** Moving a pill into the source block keeps every pill in exactly one
      block, and the block stays in increasing order. */
  lemma MoveToSource(src: seq<nat>, inter: seq<nat>, n: nat, i: nat)
    requires multiset(src) + multiset(inter) == multiset(Indices(n)) && i < n
    ensures multiset(Reorder(Remove(src, i) + [i])) + multiset(Remove(inter, i)) == multiset(Indices(n))
    ensures Ascending(Reorder(Remove(src, i) + [i]))
    ensures multiset(Reorder(Remove(src, i) + [i])) == multiset(src)[i := 1]
  {
    var s: seq<nat> := Remove(src, i) + [i];
    assert multiset(s) == multiset(src)[i := 0] + multiset{i};
    MovedCounts(src, inter, n, i);
    MovedOnce(src, inter, n, i);
    ReorderAscending(s);
  }

  lemma MovedCounts(src: seq<nat>, inter: seq<nat>, n: nat, i: nat)
    requires multiset(src) + multiset(inter) == multiset(Indices(n)) && i < n
    ensures multiset(src)[i := 0] + multiset{i} + multiset(inter)[i := 0] == multiset(Indices(n))
  {
    forall x: nat ensures (multiset(src)[i := 0] + multiset{i} + multiset(inter)[i := 0])[x] == multiset(Indices(n))[x] {
      IndicesCount(n, x);
    }
  }

  lemma MovedOnce(src: seq<nat>, inter: seq<nat>, n: nat, i: nat)
    requires multiset(src) + multiset(inter) == multiset(Indices(n)) && i < n
    ensures forall x: nat :: multiset(Remove(src, i) + [i])[x] <= 1
  {
    var s: seq<nat> := Remove(src, i) + [i];
    assert multiset(s) == multiset(src)[i := 0] + multiset{i};
    forall x: nat ensures multiset(s)[x] <= 1 {
      IndicesCount(n, x);
    }
  }

  /** With the invariant, `item-i` names item `i`. */
  lemma LookupRegistered(b: Board, i: nat)
    requires Registered(b) && i < |b.items|
    ensures Lookup(b.items, ItemId(i)) == Some(i)
  {
    match Lookup(b.items, ItemId(i))
    case None =>
    case Some(k) => ItemIdInjective(k, i);
  }

  lemma AscendingRemove(s: seq<nat>, x: nat)
    requires Ascending(s)
    ensures Ascending(Remove(s, x))
  {
    if |s| > 0 {
      AscendingRemove(s[1..], x);
      var t := Remove(s[1..], x);
      forall k | 0 <= k < |t| ensures s[0] < t[k] {
        assert t[k] in multiset(t);
        assert t[k] in multiset(s[1..]);
        var m :| 0 <= m < |s[1..]| && s[1..][m] == t[k];
        assert s[m + 1] == t[k];
      }
    }
  }

  /** The summary only reads keys, values and click counts. */
  lemma {:induction false} SummaryPointwise(a: seq<Item>, c: seq<Item>)
    requires |a| == |c|
    requires forall i :: 0 <= i < |a| ==> a[i].key == c[i].key && a[i].value == c[i].value && a[i].clicks == c[i].clicks
    ensures ClickSummary(a) == ClickSummary(c)
  {
    ClickedPointwise(a, c);
    var x, y := Clicked(a), Clicked(c);
    assert Phrases(x) == Phrases(y);
  }

  lemma {:induction false} ClickedPointwise(a: seq<Item>, c: seq<Item>)
    requires |a| == |c|
    requires forall i :: 0 <= i < |a| ==> a[i].key == c[i].key && a[i].value == c[i].value && a[i].clicks == c[i].clicks
    ensures |Clicked(a)| == |Clicked(c)|
    ensures forall k :: 0 <= k < |Clicked(a)| ==> Phrase(Clicked(a)[k]) == Phrase(Clicked(c)[k])
  {
    if |a| > 0 {
      ClickedPointwise(a[1..], c[1..]);
    }
  }

  // ---------------------------------------------------------------------
  // Clicking a pill
  // ---------------------------------------------------------------------

  /** The click handler: a click counts only while the pill is in the
      interactive block; it adds one click, appends the value to the log in
      the pill's colour, and rewrites the summary. */
  function Click(b: Board, id: string): (r: Board)
    ensures |r.items| == |b.items| && |r.pills| == |b.pills|
    ensures Lookup(b.items, id).None? ==> r == b
  {
    match Lookup(b.items, id)
    case None => b
    case Some(i) => if i in multiset(b.interactive) then Press(b, i) else b
  }

  /** `handleClickOnPill` for item `i`. */
  function Press(b: Board, i: nat): (r: Board)
    requires i < |b.items|
    ensures |r.items| == |b.items| && |r.pills| == |b.pills|
    ensures r.items[i] == b.items[i].(clicks := b.items[i].clicks + 1)
    ensures forall j :: 0 <= j < |b.items| && j != i ==> r.items[j] == b.items[j]
    ensures r.source == b.source && r.interactive == b.interactive && r.pills == b.pills
    ensures |r.log| == |b.log| + 1 && r.log[..|b.log|] == b.log && r.log[|b.log|].color == LogColor(b.items[i])
    ensures LogText(r.log) == if LogText(b.log) == "" then b.items[i].value else LogText(b.log) + " " + b.items[i].value
    ensures r.info == ClickSummary(r.items)
  {
    var o := b.items[i];
    var items := b.items[i := o.(clicks := o.clicks + 1)];
    b.(items := items,
       log := AppendToLog(b.log, o.value, LogColor(o)),
       info := ClickSummary(items))
  }

  /** A click adds one to the clicked item's count exactly when its pill is
      in the interactive block, and otherwise changes nothing at all; no
      other item and no pill changes. */
  lemma ClickCounts(b: Board, i: nat)
    requires Registered(b) && i < |b.items|
    ensures var r := Click(b, ItemId(i));
      && (i in multiset(b.interactive) ==> r.items[i] == b.items[i].(clicks := b.items[i].clicks + 1))
      && (i !in multiset(b.interactive) ==> r == b)
      && (forall j :: 0 <= j < |b.items| && j != i ==> r.items[j] == b.items[j])
      && r.source == b.source && r.interactive == b.interactive && r.pills == b.pills
  {
    LookupRegistered(b, i);
  }

  /** The log grows by the clicked value, after a space unless it was empty,
      in the item's random colour. */
  lemma ClickLogs(b: Board, i: nat)
    requires Wf(b) && i < |b.items| && i in multiset(b.interactive)
    ensures var r := Click(b, ItemId(i));
      && LogText(r.log) == (if LogText(b.log) == "" then b.items[i].value else LogText(b.log) + " " + b.items[i].value)
      && |r.log| == |b.log| + 1
      && r.log[..|b.log|] == b.log
      && r.log[|b.log|].color == b.items[i].randomColor.value
  {
    LookupRegistered(b, i);
  }

  /** Under the invariant the log colour of a clickable pill is the colour it
      is displayed in, and an item that was ever clicked logs its random
      colour: the fallback to the original colour is never taken. */
  lemma LogColorShown(b: Board, i: nat)
    requires Wf(b) && i < |b.items|
    ensures i in multiset(b.interactive) ==> LogColor(b.items[i]) == b.pills[i].color
    ensures b.items[i].clicks > 0 ==> LogColor(b.items[i]) == b.items[i].randomColor.value
    ensures b.items[i].randomColor.Some? ==> LogColor(b.items[i]) == b.items[i].randomColor.value
  {
  }

  lemma ClickWf(b: Board, id: string)
    requires Wf(b)
    ensures Wf(Click(b, id))
  {
    match Lookup(b.items, id)
    case None =>
    case Some(i) =>
      if i in multiset(b.interactive) {
        PressWf(b, i);
      }
  }

  lemma PressWf(b: Board, i: nat)
    requires Wf(b) && i < |b.items| && i in multiset(b.interactive)
    ensures Wf(Press(b, i))
  {
    var r := Press(b, i);
    assert Registered(r);
    assert Partitioned(r);
    PressShown(b, i);
  }

  lemma PressShown(b: Board, i: nat)
    requires i < |b.items| && |b.pills| == |b.items| && i in multiset(b.interactive)
    requires PillsShown(b) && ColoursSet(b)
    ensures PillsShown(Press(b, i)) && ColoursSet(Press(b, i))
  {
    var r := Press(b, i);
    forall j | 0 <= j < |r.items|
      ensures r.items[j].originalColor == b.items[j].originalColor
      ensures r.items[j].randomColor == b.items[j].randomColor
    {
    }
  }

  // ---------------------------------------------------------------------
  // Sequences of user actions
  // ---------------------------------------------------------------------

  /** One user action. */
  datatype Event =
    | SubmitLine(line: string)
    | DropPill(id: string, target: Container, draw: Draw, g: Geometry)
    | ClickPill(id: string)

  predicate ValidEvent(e: Event) {
    e.DropPill? ==> ValidDraw(e.draw)
  }

  function Step(b: Board, e: Event, le: (string, string) -> bool): (r: Board)
    requires ValidEvent(e) && |b.pills| == |b.items|
    ensures |r.pills| == |r.items|
  {
    match e
    case SubmitLine(line) =>
      var s := Submit(b, line, le);
      if s.alert.None? then s.board else b
    case DropPill(id, target, draw, g) => Drop(b, id, target, draw, g)
    case ClickPill(id) => Click(b, id)
  }

  lemma StepWf(b: Board, e: Event, le: (string, string) -> bool)
    requires ValidEvent(e) && Wf(b)
    ensures Wf(Step(b, e, le))
  {
    match e
    case SubmitLine(line) =>
      if !AllWhitespace(line) {
        SubmitAccepted(b, line, le);
      }
    case DropPill(id, target, draw, g) => DropWf(b, id, target, draw, g);
    case ClickPill(id) => ClickWf(b, id);
  }

  /** From `b` to `r`, the registry keeps its size, a random colour once set
      stays the same, and no click count decreases. */
  ghost predicate Keeps(b: Board, r: Board) {
    && |r.items| == |b.items|
    && (forall j :: 0 <= j < |b.items| && b.items[j].randomColor.Some? ==>
          r.items[j].randomColor == b.items[j].randomColor)
    && (forall j :: 0 <= j < |b.items| ==> r.items[j].clicks >= b.items[j].clicks)
  }

  lemma KeepsTransitive(a: Board, b: Board, c: Board)
    requires Keeps(a, b) && Keeps(b, c)
    ensures Keeps(a, c)
  {
    forall j | 0 <= j < |a.items| && a.items[j].randomColor.Some?
      ensures c.items[j].randomColor == a.items[j].randomColor
    {
      assert b.items[j].randomColor == a.items[j].randomColor;
    }
    forall j | 0 <= j < |a.items| ensures c.items[j].clicks >= a.items[j].clicks {
      assert b.items[j].clicks >= a.items[j].clicks;
    }
  }

  /** Between two submitted lines, a random colour once set never changes
      and click counts never decrease. */
  lemma StepKeeps(b: Board, e: Event, le: (string, string) -> bool)
    requires ValidEvent(e) && Wf(b) && !e.SubmitLine?
    ensures Keeps(b, Step(b, e, le))
  {
    match e
    case DropPill(id, target, draw, g) => DropColours(b, id, target, draw, g);
    case ClickPill(id) =>
  }

  /** The board after a sequence of actions. */
  function Run(b: Board, es: seq<Event>, le: (string, string) -> bool): (r: Board)
    requires forall k :: 0 <= k < |es| ==> ValidEvent(es[k])
    requires |b.pills| == |b.items|
    ensures |r.pills| == |r.items|
    decreases |es|
  {
    if |es| == 0 then b else Run(Step(b, es[0], le), es[1..], le)
  }

  /** Every sequence of actions from a well-formed board keeps the invariant. */
  lemma {:induction false} RunWf(b: Board, es: seq<Event>, le: (string, string) -> bool)
    requires forall k :: 0 <= k < |es| ==> ValidEvent(es[k])
    requires Wf(b)
    ensures Wf(Run(b, es, le))
    decreases |es|
  {
    if |es| > 0 {
      StepWf(b, es[0], le);
      RunWf(Step(b, es[0], le), es[1..], le);
    }
  }

  /** Over drops and clicks alone, a random colour once set stays the same
      and click counts never decrease. */
  lemma {:induction false} RunKeeps(b: Board, es: seq<Event>, le: (string, string) -> bool)
    requires forall k :: 0 <= k < |es| ==> ValidEvent(es[k]) && !es[k].SubmitLine?
    requires Wf(b)
    ensures Keeps(b, Run(b, es, le))
    decreases |es|
  {
    if |es| > 0 {
      var s := Step(b, es[0], le);
      StepKeeps(b, es[0], le);
      StepWf(b, es[0], le);
      RunKeeps(s, es[1..], le);
      KeepsTransitive(b, s, Run(s, es[1..], le));
    }
  }
}
