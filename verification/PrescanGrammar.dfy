/**
 * What the scanner reads, told from the bytes alone: where a name and a value begin and
 * end, which bytes they are, and which label a content attribute names. From markup
 * written out in these terms the scan reads back what was written.
 */
module PrescanGrammar {
  import opened Prescan

  /** The bytes ASCII-lowercased, one for one. */
  function LowerAll(bytes: Bytes): (r: Bytes)
    ensures |r| == |bytes| && forall i :: 0 <= i < |r| ==> r[i] == Lower(bytes[i])
  {
    seq(|bytes|, i requires 0 <= i < |bytes| => Lower(bytes[i]))
  }

  /** The bytes are the ASCII codes of `s`. */
  predicate Spells(bytes: Bytes, s: string) {
    |bytes| == |s| && forall i :: 0 <= i < |s| ==> bytes[i] as char == s[i]
  }

  /** The words the scanner knows, and the bytes it tells apart. */
  lemma Vocabulary(b: Byte)
    ensures Spells(CHARSET, "charset") && Spells(CONTENT, "content") && Spells(HTTP_EQUIV, "http-equiv")
    ensures Spells(CONTENT_TYPE, "content-type") && Spells(COMMENT_OPEN, "<!--")
    ensures IsWs(b) <==> b as char in " \t\n\r\U{0C}"
    ensures IsWsOrSlash(b) <==> IsWs(b) || b as char == '/'
    ensures IsLetter(b) <==> 'a' <= b as char <= 'z' || 'A' <= b as char <= 'Z'
    ensures Lower(b) == if 'A' <= b as char <= 'Z' then b + ('a' as int - 'A' as int) else b
  {
  }

  // ----- the bytes of an attribute -----

  /** All of `bytes[from..to]` is white space. */
  predicate Blank(bytes: Bytes, from: nat, to: nat) {
    from <= to <= |bytes| && forall i :: from <= i < to ==> IsWs(bytes[i])
  }

  predicate IsQuote(b: Byte) {
    b == DOUBLE_QUOTE || b == SINGLE_QUOTE
  }

  predicate EndsName(b: Byte) {
    IsWsOrSlash(b) || b == GREATER || b == EQUALS
  }

  predicate EndsBare(b: Byte) {
    IsWs(b) || b == GREATER
  }

  /** `bytes[p..e]` is a name: it begins with anything but white space, `/` and `>`, even `=`, and `e` ends it. */
  predicate NameSpan(bytes: Bytes, p: nat, e: nat) {
    && p < e < |bytes| && !IsWsOrSlash(bytes[p]) && bytes[p] != GREATER
    && (forall i :: p < i < e ==> !EndsName(bytes[i])) && EndsName(bytes[e])
  }

  /** `c` is the first of that quote after the opening one at `v`. */
  predicate QuotedSpan(bytes: Bytes, v: nat, c: nat) {
    && v < c < |bytes| && IsQuote(bytes[v]) && bytes[c] == bytes[v]
    && forall i :: v < i < c ==> bytes[i] != bytes[v]
  }

  /** `bytes[v..c]` is an unquoted value; `c` is the first white space or `>`. */
  predicate BareSpan(bytes: Bytes, v: nat, c: nat) {
    && v < c < |bytes| && !IsQuote(bytes[v]) && !EndsBare(bytes[v])
    && (forall i :: v < i < c ==> !EndsBare(bytes[i])) && EndsBare(bytes[c])
  }

  /** The value at `v`, after the `=` and white space: quoted, empty before the tag's end, or bare. */
  ghost predicate IsValue(bytes: Bytes, v: nat, value: Bytes, next: nat) {
    || (exists c: nat :: QuotedSpan(bytes, v, c) && value == LowerAll(bytes[v + 1..c]) && next == c + 1)
    || (ByteIs(bytes, v, GREATER) && value == [] && next == v)
    || (exists c: nat :: BareSpan(bytes, v, c) && value == LowerAll(bytes[v..c]) && next == c)
  }

  /** White space, and then a value. */
  ghost predicate IsSpacedValue(bytes: Bytes, pos: nat, value: Bytes, next: nat) {
    exists v: nat :: Blank(bytes, pos, v) && v < |bytes| && !IsWs(bytes[v]) && IsValue(bytes, v, value, next)
  }

  /** What follows a name ending at `e`: white space, and then `=` and a value or nothing. */
  ghost predicate IsRest(bytes: Bytes, e: nat, value: Bytes, next: nat) {
    exists s: nat :: Blank(bytes, e, s) && s < |bytes| && !IsWs(bytes[s]) &&
                if bytes[s] == EQUALS then IsSpacedValue(bytes, s + 1, value, next)
                else value == [] && next == s
  }

  /** From `pos` the bytes spell an attribute, its name and value lowercased, and `next` is where it ends. */
  ghost predicate IsAttribute(bytes: Bytes, pos: nat, attr: Attribute, next: nat) {
    exists p: nat, e: nat ::
      && pos <= p && NameSpan(bytes, p, e) && (forall i :: pos <= i < p ==> IsWsOrSlash(bytes[i]))
      && attr.name == LowerAll(bytes[p..e]) && IsRest(bytes, e, attr.value, next)
  }

  // ----- reading a value -----

  lemma LowerNext(bytes: Bytes, pos: nat, c: nat, value: Bytes)
    requires pos < c <= |bytes|
    ensures value + LowerAll(bytes[pos..c]) == (value + [Lower(bytes[pos])]) + LowerAll(bytes[pos + 1..c])
  {
    assert bytes[pos..c] == [bytes[pos]] + bytes[pos + 1..c];
  }

  lemma {:induction false} QuotedReads(bytes: Bytes, pos: nat, c: nat, quote: Byte, name: Bytes, value: Bytes)
    requires pos <= c < |bytes| && bytes[c] == quote && forall i :: pos <= i < c ==> bytes[i] != quote
    ensures Quoted(bytes, pos, quote, name, value) == Found(Attribute(name, value + LowerAll(bytes[pos..c])), c + 1)
    decreases c - pos
  {
    if pos < c {
      QuotedReads(bytes, pos + 1, c, quote, name, value + [Lower(bytes[pos])]);
      LowerNext(bytes, pos, c, value);
    } else {
      assert value + LowerAll(bytes[pos..c]) == value;
    }
  }

  /** Either the closing quote is there, or the window ends inside the value. */
  lemma {:induction false} QuoteOrEnd(bytes: Bytes, pos: nat, quote: Byte, name: Bytes, value: Bytes) returns (c: nat)
    requires pos <= |bytes|
    ensures pos <= c <= |bytes| && (forall i :: pos <= i < c ==> bytes[i] != quote)
    ensures c < |bytes| ==> bytes[c] == quote
    ensures Quoted(bytes, pos, quote, name, value).Eof? <==> c == |bytes|
    decreases |bytes| - pos
  {
    c := pos;
    if pos < |bytes| && bytes[pos] != quote {
      c := QuoteOrEnd(bytes, pos + 1, quote, name, value + [Lower(bytes[pos])]);
    }
  }

  lemma {:induction false} BareReads(bytes: Bytes, pos: nat, c: nat, name: Bytes, value: Bytes)
    requires pos <= c < |bytes| && EndsBare(bytes[c]) && forall i :: pos <= i < c ==> !EndsBare(bytes[i])
    ensures Bare(bytes, pos, name, value) == Found(Attribute(name, value + LowerAll(bytes[pos..c])), c)
    decreases c - pos
  {
    if pos < c {
      BareReads(bytes, pos + 1, c, name, value + [Lower(bytes[pos])]);
      LowerNext(bytes, pos, c, value);
    } else {
      assert value + LowerAll(bytes[pos..c]) == value;
    }
  }

  lemma {:induction false} BareOrEnd(bytes: Bytes, pos: nat, name: Bytes, value: Bytes) returns (c: nat)
    requires pos <= |bytes|
    ensures pos <= c <= |bytes| && (forall i :: pos <= i < c ==> !EndsBare(bytes[i]))
    ensures c < |bytes| ==> EndsBare(bytes[c])
    ensures Bare(bytes, pos, name, value).Eof? <==> c == |bytes|
    decreases |bytes| - pos
  {
    c := pos;
    if pos < |bytes| && !EndsBare(bytes[pos]) {
      c := BareOrEnd(bytes, pos + 1, name, value + [Lower(bytes[pos])]);
    }
  }

  /** Skipping ends exactly at the first byte that is not white space. */
  lemma {:induction false} SkipTo(bytes: Bytes, pos: nat, end: nat, skip: Byte -> bool)
    requires pos <= end < |bytes| && !skip(bytes[end]) && forall i :: pos <= i < end ==> skip(bytes[i])
    ensures SkipWhile(bytes, pos, skip) == end
    decreases end - pos
  {
    if pos < end {
      SkipTo(bytes, pos + 1, end, skip);
    }
  }

  lemma ValueReads(bytes: Bytes, pos: nat, v: nat, name: Bytes, value: Bytes, next: nat)
    requires Blank(bytes, pos, v) && v < |bytes| && !IsWs(bytes[v]) && IsValue(bytes, v, value, next)
    ensures ValueAt(bytes, pos, name) == Found(Attribute(name, value), next)
  {
    hide LowerAll, Quoted, Bare, SkipWhile;
    SkipTo(bytes, pos, v, IsWs);
    if c: nat :| QuotedSpan(bytes, v, c) && value == LowerAll(bytes[v + 1..c]) && next == c + 1 {
      QuotedReads(bytes, v + 1, c, bytes[v], name, []);
      assert [] + LowerAll(bytes[v + 1..c]) == LowerAll(bytes[v + 1..c]);
    } else if c: nat :| BareSpan(bytes, v, c) && value == LowerAll(bytes[v..c]) && next == c {
      BareReads(bytes, v, c, name, []);
      assert [] + LowerAll(bytes[v..c]) == LowerAll(bytes[v..c]);
    }
  }

  lemma ReadValue(bytes: Bytes, pos: nat, name: Bytes) returns (v: nat)
    requires pos <= |bytes| && ValueAt(bytes, pos, name).Found?
    ensures Blank(bytes, pos, v) && v < |bytes| && !IsWs(bytes[v])
    ensures var r := ValueAt(bytes, pos, name); IsValue(bytes, v, r.attr.value, r.next)
  {
    hide LowerAll, Quoted, Bare;
    v := SkipWhile(bytes, pos, IsWs);
    if IsQuote(bytes[v]) {
      var c := QuoteOrEnd(bytes, v + 1, bytes[v], name, []);
      QuotedReads(bytes, v + 1, c, bytes[v], name, []);
      assert [] + LowerAll(bytes[v + 1..c]) == LowerAll(bytes[v + 1..c]);
      assert QuotedSpan(bytes, v, c);
    } else if bytes[v] != GREATER {
      var c := BareOrEnd(bytes, v, name, []);
      BareReads(bytes, v, c, name, []);
      assert [] + LowerAll(bytes[v..c]) == LowerAll(bytes[v..c]);
      assert BareSpan(bytes, v, c);
    }
  }

  // ----- reading a name -----

  /** What happens where a name ends. */
  function AtNameEnd(bytes: Bytes, e: nat, name: Bytes): Sniffed
    requires e < |bytes|
  {
    if bytes[e] == EQUALS then ValueAt(bytes, e + 1, name)
    else if IsWs(bytes[e]) then AfterName(bytes, e, name)
    else Found(Attribute(name, []), e)
  }

  lemma {:induction false} NameReads(bytes: Bytes, pos: nat, e: nat, name: Bytes)
    requires pos <= e < |bytes| && name != [] && EndsName(bytes[e]) && forall i :: pos <= i < e ==> !EndsName(bytes[i])
    ensures NameAt(bytes, pos, name) == AtNameEnd(bytes, e, name + LowerAll(bytes[pos..e]))
    decreases e - pos
  {
    hide ValueAt, AfterName;
    if pos < e {
      NameReads(bytes, pos + 1, e, name + [Lower(bytes[pos])]);
      LowerNext(bytes, pos, e, name);
    } else {
      assert name + LowerAll(bytes[pos..e]) == name;
    }
  }

  lemma {:induction false} NameOrEnd(bytes: Bytes, pos: nat, name: Bytes) returns (e: nat)
    requires pos <= |bytes| && name != []
    ensures pos <= e <= |bytes| && (forall i :: pos <= i < e ==> !EndsName(bytes[i]))
    ensures if e < |bytes| then EndsName(bytes[e]) else NameAt(bytes, pos, name) == Eof
    decreases |bytes| - pos
  {
    hide ValueAt, AfterName;
    e := pos;
    if pos < |bytes| && !EndsName(bytes[pos]) {
      e := NameOrEnd(bytes, pos + 1, name + [Lower(bytes[pos])]);
    }
  }

  /** The first byte of a name is taken whatever it is, `=` included. */
  lemma NameBegins(bytes: Bytes, p: nat, e: nat)
    requires NameSpan(bytes, p, e)
    ensures NameAt(bytes, p, []) == AtNameEnd(bytes, e, LowerAll(bytes[p..e]))
  {
    hide ValueAt, AfterName, AtNameEnd;
    assert [] + [Lower(bytes[p])] == [Lower(bytes[p])];
    NameReads(bytes, p + 1, e, [Lower(bytes[p])]);
    LowerNext(bytes, p, e, []);
    assert [] + LowerAll(bytes[p..e]) == LowerAll(bytes[p..e]);
  }

  lemma RestReads(bytes: Bytes, e: nat, name: Bytes, value: Bytes, next: nat)
    requires e < |bytes| && EndsName(bytes[e]) && IsRest(bytes, e, value, next)
    ensures AtNameEnd(bytes, e, name) == Found(Attribute(name, value), next)
  {
    hide ValueAt, IsValue, SkipWhile;
    var s: nat :| Blank(bytes, e, s) && s < |bytes| && !IsWs(bytes[s]) &&
             if bytes[s] == EQUALS then IsSpacedValue(bytes, s + 1, value, next) else value == [] && next == s;
    SkipTo(bytes, e, s, IsWs);
    if bytes[s] == EQUALS {
      var v: nat :| Blank(bytes, s + 1, v) && v < |bytes| && !IsWs(bytes[v]) && IsValue(bytes, v, value, next);
      ValueReads(bytes, s + 1, v, name, value, next);
    }
  }

  lemma ReadRest(bytes: Bytes, e: nat, name: Bytes)
    requires e < |bytes| && EndsName(bytes[e]) && AtNameEnd(bytes, e, name).Found?
    ensures var r := AtNameEnd(bytes, e, name);
            r.attr.name == name && IsRest(bytes, e, r.attr.value, r.next)
  {
    hide IsValue;
    var r := AtNameEnd(bytes, e, name);
    var s := SkipWhile(bytes, e, IsWs);
    assert Blank(bytes, e, s);
    if bytes[e] == EQUALS || (IsWs(bytes[e]) && bytes[s] == EQUALS) {
      var v := ReadValue(bytes, s + 1, name);
      assert Blank(bytes, s + 1, v) && IsValue(bytes, v, r.attr.value, r.next);
    }
  }

  /**
   * The scanner finds an attribute exactly where the bytes spell one: its name is the
   * lowercased bytes up to its end, its value the lowercased bytes between the opening
   * quote and the first matching one, or up to white space or `>`.
   */
  lemma AttributeExactly(bytes: Bytes, pos: nat, attr: Attribute, next: nat)
    requires pos <= |bytes|
    ensures AttributeAt(bytes, pos) == Found(attr, next) <==> IsAttribute(bytes, pos, attr, next)
  {
    hide IsRest, NameAt, AtNameEnd, IsWsOrSlash, IsWs, LowerAll;
    if IsAttribute(bytes, pos, attr, next) {
      var p: nat, e: nat :| && pos <= p && NameSpan(bytes, p, e) && (forall i :: pos <= i < p ==> IsWsOrSlash(bytes[i]))
                  && attr.name == LowerAll(bytes[p..e]) && IsRest(bytes, e, attr.value, next);
      SkipTo(bytes, pos, p, IsWsOrSlash);
      NameBegins(bytes, p, e);
      RestReads(bytes, e, attr.name, attr.value, next);
    }
    if AttributeAt(bytes, pos) == Found(attr, next) {
      var p := SkipWhile(bytes, pos, IsWsOrSlash);
      FirstOfName(bytes, p);
      var e := NameOrEnd(bytes, p + 1, [Lower(bytes[p])]);
      assert NameSpan(bytes, p, e);
      NameBegins(bytes, p, e);
      ReadRest(bytes, e, LowerAll(bytes[p..e]));
    }
  }

  lemma FirstOfName(bytes: Bytes, p: nat)
    requires p < |bytes| && !IsWsOrSlash(bytes[p]) && bytes[p] != GREATER
    ensures NameAt(bytes, p, []) == NameAt(bytes, p + 1, [Lower(bytes[p])])
  {
    assert [] + [Lower(bytes[p])] == [Lower(bytes[p])];
  }

  /** The tag's end is found exactly where only white space and slashes come before a `>`. */
  lemma TagEndExactly(bytes: Bytes, pos: nat, next: nat)
    requires pos <= |bytes|
    ensures AttributeAt(bytes, pos) == NoAttr(next)
            <==> pos <= next && ByteIs(bytes, next, GREATER) && forall i :: pos <= i < next ==> IsWsOrSlash(bytes[i])
  {
    hide NameAt;
    if pos <= next && ByteIs(bytes, next, GREATER) && forall i :: pos <= i < next ==> IsWsOrSlash(bytes[i]) {
      SkipTo(bytes, pos, next, IsWsOrSlash);
    }
  }
}
