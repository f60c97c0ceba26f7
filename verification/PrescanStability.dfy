/**
 * What a prescan decides does not depend on bytes it has not reached, nor on
 * the order of a tag's attributes.
 */
module PrescanStability {
  import opened Wrappers
  import opened Prescan

  // ----- more bytes change nothing that was decided -----

  lemma {:induction false} SkipStable(a: Bytes, b: Bytes, pos: nat, skip: Byte -> bool)
    requires a <= b && SkipWhile(a, pos, skip) < |a|
    ensures SkipWhile(b, pos, skip) == SkipWhile(a, pos, skip)
    decreases |a| - pos
  {
    if pos < |a| && skip(a[pos]) {
      SkipStable(a, b, pos + 1, skip);
    }
  }

  lemma {:induction false} QuotedStable(a: Bytes, b: Bytes, pos: nat, quote: Byte, name: Bytes, value: Bytes)
    requires a <= b && !Quoted(a, pos, quote, name, value).Eof?
    ensures Quoted(b, pos, quote, name, value) == Quoted(a, pos, quote, name, value)
    decreases |a| - pos
  {
    if pos < |a| && a[pos] != quote {
      QuotedStable(a, b, pos + 1, quote, name, value + [Lower(a[pos])]);
    }
  }

  lemma {:induction false} BareStable(a: Bytes, b: Bytes, pos: nat, name: Bytes, value: Bytes)
    requires a <= b && !Bare(a, pos, name, value).Eof?
    ensures Bare(b, pos, name, value) == Bare(a, pos, name, value)
    decreases |a| - pos
  {
    hide IsWs;
    if pos < |a| && !(IsWs(a[pos]) || a[pos] == GREATER) {
      BareStable(a, b, pos + 1, name, value + [Lower(a[pos])]);
    }
  }

  lemma ValueStable(a: Bytes, b: Bytes, pos: nat, name: Bytes)
    requires a <= b && !ValueAt(a, pos, name).Eof?
    ensures ValueAt(b, pos, name) == ValueAt(a, pos, name)
  {
    hide IsWs, Quoted, Bare;
    SkipStable(a, b, pos, IsWs);
    var p := SkipWhile(a, pos, IsWs);
    if a[p] == DOUBLE_QUOTE || a[p] == SINGLE_QUOTE {
      QuotedStable(a, b, p + 1, a[p], name, []);
    } else if a[p] != GREATER {
      BareStable(a, b, p, name, []);
    }
  }

  lemma {:induction false} NameStable(a: Bytes, b: Bytes, pos: nat, name: Bytes)
    requires a <= b && !NameAt(a, pos, name).Eof?
    ensures NameAt(b, pos, name) == NameAt(a, pos, name)
    decreases |a| - pos
  {
    hide IsWs, ValueAt, SkipWhile;
    if a[pos] == EQUALS && name != [] {
      ValueStable(a, b, pos + 1, name);
    } else if IsWs(a[pos]) {
      SkipStable(a, b, pos, IsWs);
      var p := SkipWhile(a, pos, IsWs);
      if a[p] == EQUALS {
        ValueStable(a, b, p + 1, name);
      }
    } else if a[pos] != SLASH && a[pos] != GREATER {
      NameStable(a, b, pos + 1, name + [Lower(a[pos])]);
    }
  }

  lemma AttributeStable(a: Bytes, b: Bytes, pos: nat)
    requires a <= b && !AttributeAt(a, pos).Eof?
    ensures AttributeAt(b, pos) == AttributeAt(a, pos)
  {
    hide IsWsOrSlash, NameAt;
    SkipStable(a, b, pos, IsWsOrSlash);
    var p := SkipWhile(a, pos, IsWsOrSlash);
    if a[p] != GREATER {
      NameStable(a, b, p, []);
    }
  }

  lemma {:induction false} AttributesStable(a: Bytes, b: Bytes, pos: nat)
    requires a <= b && AttributesFrom(a, pos).Ended?
    ensures AttributesFrom(b, pos) == AttributesFrom(a, pos)
    decreases |a| - pos
  {
    hide AttributeAt;
    AttributeStable(a, b, pos);
    if AttributeAt(a, pos).Found? {
      AttributeProgress(a, pos);
      AttributesStable(a, b, AttributeAt(a, pos).next);
    }
  }

  lemma {:induction false} CommentStable(a: Bytes, b: Bytes, p: nat)
    requires a <= b && CommentEnd(a, p).Some?
    ensures CommentEnd(b, p) == CommentEnd(a, p)
    decreases |a| - p
  {
    if CommentEnd(a, p) != Some(p) {
      CommentStable(a, b, p + 1);
    }
  }

  lemma {:induction false} GreaterStable(a: Bytes, b: Bytes, p: nat)
    requires a <= b && NextGreater(a, p).Some?
    ensures NextGreater(b, p) == NextGreater(a, p)
    decreases |a| - p
  {
    if a[p] != GREATER {
      GreaterStable(a, b, p + 1);
    }
  }

  lemma TagEndStable(a: Bytes, b: Bytes, nameStart: nat)
    requires a <= b && TagEnd(a, nameStart).Some?
    ensures TagEnd(b, nameStart) == TagEnd(a, nameStart)
  {
    hide InTagName, AttributesFrom;
    SkipStable(a, b, nameStart, InTagName);
    AttributesStable(a, b, SkipWhile(a, nameStart, InTagName));
  }

  // ----- no branch can be taken later that could not be taken now -----

  lemma CommentOpens(a: Bytes, pos: nat)
    ensures StartsWithAt(a, pos, COMMENT_OPEN) <==>
            ByteIs(a, pos, LESS) && ByteIs(a, pos + 1, BANG) && ByteIs(a, pos + 2, DASH) && ByteIs(a, pos + 3, DASH)
  {
    if pos + 4 <= |a| {
      var s := a[pos..pos + 4];
      assert s[0] == a[pos] && s[1] == a[pos + 1] && s[2] == a[pos + 2] && s[3] == a[pos + 3];
    }
  }

  /** A comment whose opening the window cuts is, for the short window, a `<!` without end. */
  lemma CutComment(a: Bytes, b: Bytes, pos: nat, labels: Labels)
    requires a <= b && pos + 1 < |a|
    requires StartsWithAt(b, pos, COMMENT_OPEN) && !StartsWithAt(a, pos, COMMENT_OPEN)
    ensures Step(a, pos, labels) == Abort
  {
    CommentOpens(a, pos);
    CommentOpens(b, pos);
    assert MetaStart(a, pos) == None && TagNameStart(a, pos) == None && BangSlashOrQuestion(a, pos);
    assert NextGreater(a, pos + 2) == None by {
      if pos + 2 < |a| { assert NextGreater(a, pos + 3) == None; }
    }
  }

  lemma {:induction false} AllInName(a: Bytes, p: nat)
    requires forall i :: p <= i < |a| ==> InTagName(a[i])
    ensures SkipWhile(a, p, InTagName) >= |a|
    decreases |a| - p
  {
    hide InTagName;
    if p < |a| {
      AllInName(a, p + 1);
    }
  }

  /** A `<meta ` the window cuts is, for the short window, a tag whose name has no end. */
  lemma CutMeta(a: Bytes, b: Bytes, pos: nat, labels: Labels)
    requires a <= b && pos + 1 < |a| && MetaStart(b, pos).Some? && MetaStart(a, pos).None?
    ensures Step(a, pos, labels) == Abort
  {
    hide AttributesFrom;
    CommentOpens(a, pos);
    assert |a| <= pos + 5;
    forall i | pos + 1 <= i < |a| ensures IsLetter(a[i]) && InTagName(a[i]) {
      assert a[i] == b[i];
    }
    assert TagNameStart(a, pos) == Some(pos + 1);
    AllInName(a, pos + 1);
  }

  /** A closing tag the window cuts before its name is, for the short window, a `</` without end. */
  lemma CutTag(a: Bytes, b: Bytes, pos: nat, labels: Labels)
    requires a <= b && pos + 1 < |a| && !StartsWithAt(a, pos, COMMENT_OPEN) && MetaStart(a, pos).None?
    requires TagNameStart(b, pos).Some? && TagNameStart(a, pos).None?
    ensures Step(a, pos, labels) == Abort
  {
    assert a[pos + 1] == SLASH && |a| == pos + 2;
  }

  lemma MetaStable(a: Bytes, b: Bytes, pos: nat)
    requires a <= b && MetaStart(a, pos).Some?
    ensures MetaStart(b, pos) == MetaStart(a, pos)
  {
  }

  lemma TagNameStable(a: Bytes, b: Bytes, pos: nat)
    requires a <= b && TagNameStart(a, pos).Some?
    ensures TagNameStart(b, pos) == TagNameStart(a, pos)
  {
  }

  lemma BranchesStable(a: Bytes, b: Bytes, pos: nat)
    requires a <= b && pos + 1 < |a|
    ensures StartsWithAt(a, pos, COMMENT_OPEN) ==> StartsWithAt(b, pos, COMMENT_OPEN)
    ensures BangSlashOrQuestion(a, pos) <==> BangSlashOrQuestion(b, pos)
  {
    CommentOpens(a, pos);
    CommentOpens(b, pos);
  }

  /** A step that did not run out of window is the same step in any longer window. */
  lemma StepStable(a: Bytes, b: Bytes, pos: nat, labels: Labels)
    requires a <= b && pos + 1 < |a| && !Step(a, pos, labels).Abort?
    ensures Step(b, pos, labels) == Step(a, pos, labels)
  {
    hide StartsWithAt, MetaStart, TagNameStart, BangSlashOrQuestion, CommentEnd, TagEnd, NextGreater, AttributesFrom,
         TagRule;
    BranchesStable(a, b, pos);
    if StartsWithAt(a, pos, COMMENT_OPEN) {
      CommentStable(a, b, pos + 4);
    } else if StartsWithAt(b, pos, COMMENT_OPEN) {
      CutComment(a, b, pos, labels);
    } else if MetaStart(a, pos).Some? {
      MetaStable(a, b, pos);
      AttributesStable(a, b, MetaStart(a, pos).value);
    } else if MetaStart(b, pos).Some? {
      CutMeta(a, b, pos, labels);
    } else if TagNameStart(a, pos).Some? {
      TagNameStable(a, b, pos);
      TagEndStable(a, b, TagNameStart(a, pos).value);
    } else if TagNameStart(b, pos).Some? {
      CutTag(a, b, pos, labels);
    } else if BangSlashOrQuestion(a, pos) {
      GreaterStable(a, b, pos + 2);
    }
  }

  /** The last byte alone can decide nothing. */
  lemma LastByte(a: Bytes, pos: nat, labels: Labels)
    requires pos + 1 == |a|
    ensures Scan(a, pos, labels) == None
  {
    hide AttributesFrom, TagRule;
    var step := Step(a, pos, labels);
    assert MetaStart(a, pos) == None;
  }

  lemma {:induction false} ScanStable(a: Bytes, b: Bytes, pos: nat, labels: Labels)
    requires a <= b && Scan(a, pos, labels).Some?
    ensures Scan(b, pos, labels) == Scan(a, pos, labels)
    decreases |a| - pos
  {
    hide Step;
    if pos + 1 == |a| {
      LastByte(a, pos, labels);
    } else {
      StepStable(a, b, pos, labels);
      match Step(a, pos, labels) {
        case Decided(_) =>
        case Abort =>
        case Continue(next) => ScanStable(a, b, next + 1, labels);
      }
    }
  }

  /** An encoding found in the bytes received so far is the one found in any longer document that starts with them. */
  lemma PrescanStable(p: Bytes, q: Bytes, labels: Labels)
    requires Prescanned(p, labels).Some?
    ensures Prescanned(p + q, labels) == Prescanned(p, labels)
  {
    hide Scan;
    assert Window(p) <= Window(p + q);
    ScanStable(Window(p), Window(p + q), 0, labels);
  }

  /** Bytes past the window are never looked at. */
  lemma OnlyTheWindowCounts(p: Bytes, q: Bytes, labels: Labels)
    requires |p| >= PRESCAN_LIMIT
    ensures Prescanned(p + q, labels) == Prescanned(p, labels)
  {
    hide Scan;
    assert Window(p + q) == Window(p);
  }

  lemma {:induction false} ScanNormal(bytes: Bytes, pos: nat, labels: Labels)
    ensures var r := Scan(bytes, pos, labels); r.Some? ==>
              !r.value.Utf16Be? && !r.value.Utf16Le? && !r.value.XUserDefined?
    decreases |bytes| - pos
  {
    hide StartsWithAt, MetaStart, TagNameStart, BangSlashOrQuestion, CommentEnd, TagEnd, NextGreater, AttributesFrom,
         TagRule, Normalized;
    if pos < |bytes| && Step(bytes, pos, labels).Continue? {
      ScanNormal(bytes, Step(bytes, pos, labels).next + 1, labels);
    }
  }

  // ----- the order of attributes -----

  /** No two attributes share a name. */
  predicate DistinctNames(attrs: seq<Attribute>) {
    forall i, j :: 0 <= i < j < |attrs| ==> attrs[i].name != attrs[j].name
  }

  lemma {:induction false} FirstOfDistinct(attrs: seq<Attribute>, name: Bytes, value: Bytes)
    requires DistinctNames(attrs)
    ensures First(attrs, name) == Some(value) <==> Attribute(name, value) in attrs
  {
    if attrs != [] {
      FirstOfDistinct(attrs[1..], name, value);
      if Attribute(name, value) in attrs[1..] {
        var i :| 0 <= i < |attrs[1..]| && attrs[1..][i] == Attribute(name, value);
        assert attrs[i + 1].name != attrs[0].name;
      }
      assert attrs == [attrs[0]] + attrs[1..];
    }
  }

  /** Reordering a tag's attributes does not change what it decides. */
  lemma OrderIsIrrelevant(a: seq<Attribute>, b: seq<Attribute>, labels: Labels)
    requires DistinctNames(a) && DistinctNames(b) && multiset(a) == multiset(b)
    ensures TagRule(a, labels) == TagRule(b, labels)
  {
    forall name ensures First(a, name) == First(b, name) {
      if First(a, name).Some? {
        var value := First(a, name).value;
        FirstOfDistinct(a, name, value);
        FirstOfDistinct(b, name, value);
        assert Attribute(name, value) in multiset(a);
      } else if First(b, name).Some? {
        var value := First(b, name).value;
        FirstOfDistinct(a, name, value);
        FirstOfDistinct(b, name, value);
        assert Attribute(name, value) in multiset(b);
      }
    }
  }

  /** Nor does repeating an attribute's name later in the tag. */
  lemma RepeatsAreIrrelevant(a: seq<Attribute>, attr: Attribute, labels: Labels)
    requires exists i :: 0 <= i < |a| && a[i].name == attr.name
    ensures TagRule(a + [attr], labels) == TagRule(a, labels)
  {
    FirstsAdd(a, attr);
    FirstIsListed(a, attr.name);
  }
}
