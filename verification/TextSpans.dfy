/**
 * The bookkeeping around shaping: the string handed to the shaper, which item
 * owns each of its bytes, and which clusters hang at the end of a line.
 */
module TextSpans {
  import opened Styles
  import opened Wrappers

  /** UTF-8 text with its style, or a forced break. */
  datatype InlineItem = Text(text: seq<Byte>, style: LayoutStyle) | Break

  datatype Span = Span(start: nat, end: nat, item: nat)

  const NEWLINE: Byte := 10
  const SPACE: Byte := 32

  /** The shaping string: the texts in order, a newline for every break. */
  function Shaped(items: seq<InlineItem>): seq<Byte> {
    if items == [] then []
    else Shaped(items[..|items| - 1]) +
         match items[|items| - 1]
         case Text(text, _) => text
         case Break => [NEWLINE]
  }

  /** One span per non-empty text, saying where its bytes went. */
  function SpansOf(items: seq<InlineItem>): seq<Span> {
    if items == [] then []
    else
      var n := |items| - 1;
      SpansOf(items[..n]) +
      if items[n].Text? && items[n].text != [] then [Span(|Shaped(items[..n])|, |Shaped(items)|, n)] else []
  }

  method Concatenate(items: seq<InlineItem>) returns (text: seq<Byte>, spans: seq<Span>)
    ensures text == Shaped(items) && spans == SpansOf(items)
  {
    text, spans := [], [];
    for index := 0 to |items|
      invariant text == Shaped(items[..index]) && spans == SpansOf(items[..index])
    {
      assert items[..index + 1][..index] == items[..index];
      match items[index] {
        case Text(run, _) =>
          var start := |text|;
          text := text + run;
          if |text| > start {
            spans := spans + [Span(start, |text|, index)];
          }
        case Break => text := text + [NEWLINE];
      }
    }
    assert items[..|items|] == items;
  }

  /** Item `k`'s bytes in the string: its text, or a line feed for a break. */
  lemma {:induction false} ItemBytes(items: seq<InlineItem>, k: nat)
    requires k < |items|
    ensures |Shaped(items[..k])| <= |Shaped(items[..k + 1])| <= |Shaped(items)|
    ensures Shaped(items)[|Shaped(items[..k])|..|Shaped(items[..k + 1])|]
            == if items[k].Text? then items[k].text else ['\n' as Byte]
  {
    var n := |items| - 1;
    assert items[..n + 1] == items;
    if k < n {
      ItemBytes(items[..n], k);
      assert items[..n][..k] == items[..k] && items[..n][..k + 1] == items[..k + 1];
    }
  }

  /** The span item `k` would have. */
  function SpanAt(items: seq<InlineItem>, k: nat): Span
    requires k < |items|
  {
    Span(|Shaped(items[..k])|, |Shaped(items[..k + 1])|, k)
  }

  /** A span is recorded for exactly the texts with bytes, and covers just these. */
  lemma {:induction false} SpansCoverTexts(items: seq<InlineItem>, k: nat)
    requires k < |items|
    ensures items[k].Text? && items[k].text != [] <==> SpanAt(items, k) in SpansOf(items)
    decreases |items|
  {
    hide Shaped;
    var n := |items| - 1;
    assert items[..n + 1] == items;
    SpanItemsBelow(items[..n]);
    LastSpan(items);
    if k < n {
      SpansCoverTexts(items[..n], k);
      assert items[..n][..k] == items[..k] && items[..n][..k + 1] == items[..k + 1];
    }
  }

  lemma LastSpan(items: seq<InlineItem>)
    requires items != []
    ensures var n := |items| - 1;
            SpansOf(items)
            == SpansOf(items[..n]) + if items[n].Text? && items[n].text != [] then [SpanAt(items, n)] else []
  {
    assert items[..|items|] == items;
  }

  lemma {:induction false} SpanItemsBelow(items: seq<InlineItem>)
    ensures forall span :: span in SpansOf(items) ==> span.item < |items|
  {
    hide Shaped;
    if items != [] {
      SpanItemsBelow(items[..|items| - 1]);
      LastSpan(items);
    }
  }

  // ----- which item owns a byte -----

  /** The text item whose bytes cover the offset, read off the items themselves. */
  function Owner(items: seq<InlineItem>, offset: nat): Option<nat> {
    if items == [] then None
    else
      var n := |items| - 1;
      if items[n].Text? && |Shaped(items[..n])| <= offset < |Shaped(items)| then Some(n)
      else Owner(items[..n], offset)
  }

  /** The first span that covers the offset. */
  function Scan(spans: seq<Span>, offset: nat): Option<nat> {
    if spans == [] then None
    else if spans[0].start <= offset < spans[0].end then Some(spans[0].item)
    else Scan(spans[1..], offset)
  }

  /** Non-empty spans, each starting where the previous one ended or later. */
  predicate Ascending(spans: seq<Span>) {
    && (forall i :: 0 <= i < |spans| ==> spans[i].start < spans[i].end)
    && (forall i, j :: 0 <= i < j < |spans| ==> spans[i].end <= spans[j].start)
  }

  lemma {:induction false} SpansAscend(items: seq<InlineItem>)
    ensures Ascending(SpansOf(items))
    ensures forall i :: 0 <= i < |SpansOf(items)| ==> SpansOf(items)[i].end <= |Shaped(items)|
  {
    if items != [] {
      SpansAscend(items[..|items| - 1]);
    }
  }

  lemma {:induction false} ScanAdd(spans: seq<Span>, last: Span, offset: nat)
    ensures Scan(spans + [last], offset) ==
            if Scan(spans, offset).Some? then Scan(spans, offset)
            else if last.start <= offset < last.end then Some(last.item) else None
  {
    if spans == [] {
      assert spans + [last] == [last];
      assert [last][1..] == [];
    } else {
      ScanAdd(spans[1..], last, offset);
      assert (spans + [last])[1..] == spans[1..] + [last];
    }
  }

  lemma {:induction false} ScanBeyond(spans: seq<Span>, offset: nat)
    requires forall i :: 0 <= i < |spans| ==> spans[i].end <= offset
    ensures Scan(spans, offset) == None
  {
    if spans != [] {
      ScanBeyond(spans[1..], offset);
    }
  }

  /** Scanning the recorded spans finds the item that really owns the byte. */
  lemma {:induction false} ScanFindsOwner(items: seq<InlineItem>, offset: nat)
    ensures Scan(SpansOf(items), offset) == Owner(items, offset)
  {
    if items != [] {
      var n := |items| - 1;
      ScanFindsOwner(items[..n], offset);
      SpansAscend(items[..n]);
      var spans := SpansOf(items[..n]);
      if items[n].Text? && items[n].text != [] {
        ScanAdd(spans, Span(|Shaped(items[..n])|, |Shaped(items)|, n), offset);
        if offset >= |Shaped(items[..n])| {
          ScanBeyond(spans, offset);
        }
      } else {
        assert SpansOf(items) == spans;
      }
    }
  }

  /** How many spans end at or before the offset: a binary search for the end of that prefix. */
  method PartitionPoint(spans: seq<Span>, offset: nat) returns (r: nat)
    requires Ascending(spans)
    ensures r <= |spans|
    ensures forall i :: 0 <= i < r ==> spans[i].end <= offset
    ensures forall i :: r <= i < |spans| ==> offset < spans[i].end
  {
    var lo: nat, hi: nat := 0, |spans|;
    while lo < hi
      invariant lo <= hi <= |spans|
      invariant forall i :: 0 <= i < lo ==> spans[i].end <= offset
      invariant forall i :: hi <= i < |spans| ==> offset < spans[i].end
    {
      var mid := (lo + hi) / 2;
      if spans[mid].end <= offset {
        lo := mid + 1;
      } else {
        hi := mid;
      }
    }
    r := lo;
  }

  lemma {:induction false} ScanFromPartition(spans: seq<Span>, offset: nat, r: nat)
    requires Ascending(spans) && r <= |spans|
    requires forall i :: 0 <= i < r ==> spans[i].end <= offset
    requires forall i :: r <= i < |spans| ==> offset < spans[i].end
    ensures Scan(spans, offset) == if r < |spans| && spans[r].start <= offset then Some(spans[r].item) else None
    decreases |spans|
  {
    if spans != [] {
      if r > 0 {
        ScanFromPartition(spans[1..], offset, r - 1);
      } else if spans[0].start > offset {
        NoneCovers(spans, offset);
      }
    }
  }

  lemma {:induction false} NoneCovers(spans: seq<Span>, offset: nat)
    requires Ascending(spans) && (spans != [] ==> offset < spans[0].start)
    ensures Scan(spans, offset) == None
  {
    if |spans| > 1 {
      NoneCovers(spans[1..], offset);
    }
  }

  /** The binary search answers what the linear scan would. */
  method SpanItem(spans: seq<Span>, offset: nat) returns (r: Option<nat>)
    requires Ascending(spans)
    ensures r == Scan(spans, offset)
  {
    var candidate := PartitionPoint(spans, offset);
    ScanFromPartition(spans, offset, candidate);
    r := if candidate < |spans| && spans[candidate].start <= offset then Some(spans[candidate].item) else None;
  }

  // ----- trailing spaces -----

  /** A shaped cluster: where it starts in the string, and whether it neither draws nor measures anything. */
  datatype Cluster = Cluster(textStart: nat, blank: bool)

  /** The byte is a space and the item that owns it collapses white space. */
  predicate HangsAt(items: seq<InlineItem>, offset: nat) {
    && offset < |Shaped(items)| && Shaped(items)[offset] == SPACE
    && (var owner := Owner(items, offset);
        owner.Some? && owner.value < |items| && items[owner.value].Text? && items[owner.value].style.whiteSpace.Normal?)
  }

  lemma {:induction false} OwnerOfItem(items: seq<InlineItem>, k: nat, j: nat)
    requires k < |items| && items[k].Text? && j < |items[k].text|
    ensures Owner(items, |Shaped(items[..k])| + j) == Some(k)
    decreases |items|
  {
    var n := |items| - 1;
    assert items[..n + 1] == items;
    if k < n {
      ItemBytes(items[..n], k);
      ItemBytes(items, k);
      assert items[..n][..k] == items[..k] && items[..n][..k + 1] == items[..k + 1];
      OwnerOfItem(items[..n], k, j);
    } else {
      assert items[..k] == items[..n];
    }
  }

  lemma {:induction false} BreakHasNoOwner(items: seq<InlineItem>, k: nat)
    requires k < |items| && items[k].Break?
    ensures Owner(items, |Shaped(items[..k])|) == None
    decreases |items|
  {
    var n := |items| - 1;
    assert items[..n + 1] == items;
    if k < n {
      ItemBytes(items[..n], k);
      ItemBytes(items, k);
      assert items[..n][..k] == items[..k] && items[..n][..k + 1] == items[..k + 1];
      BreakHasNoOwner(items[..n], k);
    } else {
      PastEnd(items[..n], |Shaped(items[..n])|);
      assert items[..k] == items[..n];
    }
  }

  lemma {:induction false} PastEnd(items: seq<InlineItem>, offset: nat)
    requires |Shaped(items)| <= offset
    ensures Owner(items, offset) == None
  {
    if items != [] {
      PastEnd(items[..|items| - 1], offset);
    }
  }

  /**
   * A byte of a text hangs exactly when it is a space and the text's style collapses white
   * space; the line feed of a break never does, nor does anything past the end.
   */
  lemma HangsExactly(items: seq<InlineItem>, k: nat, j: nat)
    requires k < |items| && (items[k].Text? ==> j < |items[k].text|)
    ensures items[k].Text? ==>
              (HangsAt(items, |Shaped(items[..k])| + j)
               <==> items[k].text[j] == ' ' as Byte && items[k].style.whiteSpace == WhiteSpace.Normal)
    ensures items[k].Break? ==> !HangsAt(items, |Shaped(items[..k])|)
    ensures !HangsAt(items, |Shaped(items)| + j)
  {
    hide Shaped, Owner;
    ItemBytes(items, k);
    if items[k].Text? {
      OwnerOfItem(items, k, j);
      var text, at := Shaped(items), |Shaped(items[..k])|;
      assert text[at..|Shaped(items[..k + 1])|][j] == text[at + j];
    } else {
      BreakHasNoOwner(items, k);
    }
  }

  predicate Hangs(c: Cluster, items: seq<InlineItem>) {
    c.blank || HangsAt(items, c.textStart)
  }

  method IsCollapsibleSpace(offset: nat, text: seq<Byte>, spans: seq<Span>, items: seq<InlineItem>) returns (b: bool)
    requires text == Shaped(items) && spans == SpansOf(items)
    ensures b == HangsAt(items, offset)
  {
    if offset >= |text| || text[offset] != SPACE {
      return false;
    }
    SpansAscend(items);
    ScanFindsOwner(items, offset);
    var owner := SpanItem(spans, offset);
    b := owner.Some? && owner.value < |items| && items[owner.value].Text?
        && items[owner.value].style.whiteSpace.Normal?;
  }

  /** Drops hanging clusters from the end of a line until one does not hang, and no others. */
  method TrimTrailingSpaces(clusters: seq<Cluster>, text: seq<Byte>, spans: seq<Span>, items: seq<InlineItem>)
    returns (kept: seq<Cluster>)
    requires text == Shaped(items) && spans == SpansOf(items)
    ensures kept <= clusters
    ensures forall i :: |kept| <= i < |clusters| ==> Hangs(clusters[i], items)
    ensures kept != [] ==> !Hangs(kept[|kept| - 1], items)
  {
    hide HangsAt;
    kept := clusters;
    while kept != []
      invariant kept <= clusters
      invariant forall i :: |kept| <= i < |clusters| ==> Hangs(clusters[i], items)
      decreases |kept|
    {
      var last := kept[|kept| - 1];
      var space := IsCollapsibleSpace(last.textStart, text, spans, items);
      if !last.blank && !space {
        break;
      }
      kept := kept[..|kept| - 1];
    }
  }
}
