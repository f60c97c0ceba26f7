/**
 * The scan read backwards: markup written out piece by piece, in front of anything, is
 * scanned piece by piece, and the first `meta` tag that declares an encoding decides.
 */
module PrescanMarkup {
  import opened Wrappers
  import opened Prescan
  import opened PrescanGrammar

  // ----- attributes as written -----

  datatype Written =
    | Quoted(name: Bytes, quote: Byte, value: Bytes)
    | Bare(name: Bytes, value: Bytes)
    | Alone(name: Bytes)

  /** A name no byte of which ends it, and a value that its quote, or white space and `>`, would not cut short. */
  predicate WrittenOk(w: Written) {
    && w.name != [] && (forall i :: 0 <= i < |w.name| ==> !EndsName(w.name[i]))
    && (w.Quoted? ==> IsQuote(w.quote) && w.quote !in w.value)
    && (w.Bare? ==> w.value != [] && !IsQuote(w.value[0]) && forall i :: 0 <= i < |w.value| ==> !EndsBare(w.value[i]))
  }

  predicate AllWritten(ws: seq<Written>) {
    forall i :: 0 <= i < |ws| ==> WrittenOk(ws[i])
  }

  function Spelled(w: Written): Bytes {
    if w.Quoted? then w.name + [EQUALS, w.quote] + w.value + [w.quote]
    else if w.Bare? then w.name + [EQUALS] + w.value
    else w.name
  }

  function SpelledAll(ws: seq<Written>): Bytes {
    if ws == [] then [] else [SPACE] + Spelled(ws[0]) + SpelledAll(ws[1..])
  }

  /** The attribute a written one means. */
  function Meant(w: Written): Attribute {
    Attribute(LowerAll(w.name), if w.Alone? then [] else LowerAll(w.value))
  }

  function AllMeant(ws: seq<Written>): seq<Attribute> {
    if ws == [] then [] else [Meant(ws[0])] + AllMeant(ws[1..])
  }

  /** The bytes from `pos` on begin with `x`. */
  predicate Has(bytes: Bytes, pos: nat, x: Bytes) {
    pos + |x| <= |bytes| && forall i :: 0 <= i < |x| ==> bytes[pos + i] == x[i]
  }

  lemma HasParts(bytes: Bytes, pos: nat, x: Bytes, y: Bytes)
    requires Has(bytes, pos, x + y)
    ensures Has(bytes, pos, x) && Has(bytes, pos + |x|, y)
  {
    forall i | 0 <= i < |x| ensures bytes[pos + i] == x[i] {
      assert (x + y)[i] == x[i];
    }
    forall i | 0 <= i < |y| ensures bytes[pos + |x| + i] == y[i] {
      assert (x + y)[|x| + i] == y[i];
    }
  }

  lemma HasSlice(bytes: Bytes, pos: nat, x: Bytes)
    requires Has(bytes, pos, x)
    ensures bytes[pos..pos + |x|] == x
  {
  }

  lemma HasByte(bytes: Bytes, pos: nat, b: Byte)
    requires Has(bytes, pos, [b])
    ensures pos < |bytes| && bytes[pos] == b
  {
    assert bytes[pos + 0] == [b][0];
  }

  lemma NameWritten(bytes: Bytes, p: nat, w: Written)
    requires WrittenOk(w) && Has(bytes, p, w.name) && p + |w.name| < |bytes| && EndsName(bytes[p + |w.name|])
    ensures NameSpan(bytes, p, p + |w.name|) && LowerAll(bytes[p..p + |w.name|]) == LowerAll(w.name)
  {
    HasSlice(bytes, p, w.name);
    assert bytes[p + 0] == w.name[0];
    forall i | p < i < p + |w.name| ensures !EndsName(bytes[i]) {
      assert bytes[p + (i - p)] == w.name[i - p];
    }
  }

  lemma QuotedWritten(bytes: Bytes, e: nat, w: Written)
    requires WrittenOk(w) && w.Quoted? && Has(bytes, e, [EQUALS, w.quote] + w.value + [w.quote])
    ensures e < |bytes| && EndsName(bytes[e]) && IsRest(bytes, e, LowerAll(w.value), e + |w.value| + 3)
  {
    var v, c := e + 1, e + 2 + |w.value|;
    HasParts(bytes, e, [EQUALS, w.quote] + w.value, [w.quote]);
    HasParts(bytes, e, [EQUALS, w.quote], w.value);
    HasByte(bytes, c, w.quote);
    var opening := [EQUALS, w.quote];
    assert bytes[e + 0] == opening[0] && bytes[e + 1] == opening[1];
    forall i | v < i < c ensures bytes[i] != bytes[v] {
      assert bytes[e + 2 + (i - v - 1)] == w.value[i - v - 1];
    }
    HasSlice(bytes, e + 2, w.value);
    assert bytes[v + 1..c] == w.value;
    assert QuotedSpan(bytes, v, c);
    assert Blank(bytes, e, e) && Blank(bytes, e + 1, v) && IsValue(bytes, v, LowerAll(w.value), c + 1);
  }

  lemma BareWritten(bytes: Bytes, e: nat, w: Written)
    requires WrittenOk(w) && w.Bare? && Has(bytes, e, [EQUALS] + w.value)
    requires e + 1 + |w.value| < |bytes| && EndsBare(bytes[e + 1 + |w.value|])
    ensures e < |bytes| && EndsName(bytes[e]) && IsRest(bytes, e, LowerAll(w.value), e + 1 + |w.value|)
  {
    var v, c := e + 1, e + 1 + |w.value|;
    HasParts(bytes, e, [EQUALS], w.value);
    HasByte(bytes, e, EQUALS);
    forall i | v <= i < c ensures bytes[i] == w.value[i - v] {
      assert bytes[v + (i - v)] == w.value[i - v];
    }
    HasSlice(bytes, v, w.value);
    assert BareSpan(bytes, v, c);
    assert Blank(bytes, e, e) && Blank(bytes, e + 1, v) && IsValue(bytes, v, LowerAll(w.value), c);
  }

  /** A byte that can follow an attribute written out: the tag's end, or a space before the next name. */
  predicate Follows(bytes: Bytes, q: nat) {
    && q < |bytes|
    && (bytes[q] == GREATER || (bytes[q] == SPACE && q + 1 < |bytes| && !EndsName(bytes[q + 1])))
  }

  /** One attribute read back; the scan may already have taken the space behind a name on its own. */
  lemma AttributeReadsBack(bytes: Bytes, pos: nat, w: Written) returns (next: nat)
    requires WrittenOk(w) && Has(bytes, pos, [SPACE] + Spelled(w)) && Follows(bytes, pos + 1 + |Spelled(w)|)
    ensures AttributeAt(bytes, pos) == Found(Meant(w), next)
    ensures var q := pos + 1 + |Spelled(w)|; next == q || (next == q + 1 && bytes[q] == SPACE)
  {
    hide NameSpan, IsRest, LowerAll, AttributeAt;
    var q, p, e := pos + 1 + |Spelled(w)|, pos + 1, pos + 1 + |w.name|;
    HasParts(bytes, pos, [SPACE], Spelled(w));
    HasByte(bytes, pos, SPACE);
    next := if w.Alone? && bytes[q] == SPACE then q + 1 else q;
    match w {
      case Quoted(name, quote, value) =>
        assert Spelled(w) == name + ([EQUALS, quote] + value + [quote]);
        HasParts(bytes, p, name, [EQUALS, quote] + value + [quote]);
        QuotedWritten(bytes, e, w);
      case Bare(name, value) =>
        assert Spelled(w) == name + ([EQUALS] + value);
        HasParts(bytes, p, name, [EQUALS] + value);
        BareWritten(bytes, e, w);
      case Alone(name) => AloneWritten(bytes, e, next);
    }
    NameWritten(bytes, p, w);
    AttributeExactly(bytes, pos, Meant(w), next);
  }

  lemma AloneWritten(bytes: Bytes, e: nat, next: nat)
    requires Follows(bytes, e) && next == if bytes[e] == SPACE then e + 1 else e
    ensures EndsName(bytes[e]) && IsRest(bytes, e, [], next)
  {
    assert Blank(bytes, e, next);
  }

  lemma SpaceIsSkipped(bytes: Bytes, q: nat)
    requires q < |bytes| && bytes[q] == SPACE
    ensures AttributesFrom(bytes, q) == AttributesFrom(bytes, q + 1)
  {
    hide NameAt;
    assert AttributeAt(bytes, q) == AttributeAt(bytes, q + 1);
  }

  /** A tag's attributes written out are read back as what they mean, up to the tag's end. */
  lemma {:induction false} AttributesReadBack(bytes: Bytes, pos: nat, ws: seq<Written>)
    requires AllWritten(ws) && Has(bytes, pos, SpelledAll(ws) + [GREATER])
    ensures AttributesFrom(bytes, pos) == Ended(AllMeant(ws), pos + |SpelledAll(ws)|)
    decreases |ws|
  {
    hide AttributeAt, WrittenOk, Spelled, Meant;
    if ws == [] {
      assert SpelledAll(ws) + [GREATER] == [GREATER];
      HasByte(bytes, pos, GREATER);
      TagEndExactly(bytes, pos, pos);
      NoMoreAttributes(bytes, pos);
    } else {
      var first, rest := [SPACE] + Spelled(ws[0]), SpelledAll(ws[1..]);
      var q := pos + |first|;
      assert SpelledAll(ws) + [GREATER] == first + (rest + [GREATER]);
      HasParts(bytes, pos, first, rest + [GREATER]);
      SpelledFollows(bytes, q, ws[1..]);
      var next := AttributeReadsBack(bytes, pos, ws[0]);
      AttributesReadBack(bytes, q, ws[1..]);
      if next == q + 1 {
        SpaceIsSkipped(bytes, q);
      }
    }
  }

  lemma SpelledFollows(bytes: Bytes, q: nat, ws: seq<Written>)
    requires AllWritten(ws) && Has(bytes, q, SpelledAll(ws) + [GREATER])
    ensures Follows(bytes, q)
  {
    var all := SpelledAll(ws) + [GREATER];
    assert bytes[q + 0] == all[0];
    if ws != [] {
      assert all[1] == ws[0].name[0];
      assert bytes[q + 1] == all[1];
    }
  }

  // ----- what a tag decides -----

  /** The value of the first attribute of that name, if there is one. */
  predicate IsFirstValue(attrs: seq<Attribute>, name: Bytes, r: Option<Bytes>) {
    if r.None? then forall i :: 0 <= i < |attrs| ==> attrs[i].name != name
    else exists i :: 0 <= i < |attrs| && attrs[i] == Attribute(name, r.value)
                     && forall j :: 0 <= j < i ==> attrs[j].name != name
  }

  lemma {:induction false} FirstIsFirst(attrs: seq<Attribute>, name: Bytes)
    ensures IsFirstValue(attrs, name, First(attrs, name))
  {
    if attrs != [] {
      FirstIsFirst(attrs[1..], name);
      var r := First(attrs[1..], name);
      if attrs[0].name != name {
        if r.Some? {
          var i :| 0 <= i < |attrs[1..]| && attrs[1..][i] == Attribute(name, r.value)
                   && forall j :: 0 <= j < i ==> attrs[1..][j].name != name;
          forall j | 0 <= j < i + 1 ensures attrs[j].name != name {
            assert j > 0 ==> attrs[j] == attrs[1..][j - 1];
          }
          assert attrs[i + 1] == Attribute(name, r.value);
        } else {
          forall i | 0 <= i < |attrs| ensures attrs[i].name != name {
            assert i > 0 ==> attrs[i] == attrs[1..][i - 1];
          }
        }
      }
    }
  }

  /**
   * The rule in the attributes' own terms: a `charset` decides alone, known or not; else a
   * `content` does, and only beside an `http-equiv` of `content-type`; else nothing.
   */
  lemma TagRuleExactly(attrs: seq<Attribute>, labels: Labels, charset: Option<Bytes>, content: Option<Bytes>,
                       pragma: Option<Bytes>)
    requires IsFirstValue(attrs, CHARSET, charset) && IsFirstValue(attrs, CONTENT, content)
    requires IsFirstValue(attrs, HTTP_EQUIV, pragma)
    ensures charset.Some? ==> TagRule(attrs, labels) == labels(charset.value)
    ensures charset.None? && content.Some? && pragma == Some(CONTENT_TYPE) ==>
              TagRule(attrs, labels) == Extracted(content.value, labels)
    ensures charset.None? && (content.None? || pragma != Some(CONTENT_TYPE)) ==> TagRule(attrs, labels) == None
  {
    hide Extracted, IsFirstValue;
    OneFirst(attrs, CHARSET, charset);
    OneFirst(attrs, CONTENT, content);
    OneFirst(attrs, HTTP_EQUIV, pragma);
  }

  lemma OneFirst(attrs: seq<Attribute>, name: Bytes, r: Option<Bytes>)
    requires IsFirstValue(attrs, name, r)
    ensures First(attrs, name) == r
  {
    FirstIsFirst(attrs, name);
  }

  // ----- the label a content attribute names -----

  predicate EndsLabel(b: Byte) {
    IsWs(b) || b == SEMICOLON
  }

  /** The encoding label at `v`, behind `=` and white space: between quotes that close, or up to white space or `;`. */
  ghost predicate IsLabel(content: Bytes, v: nat, named: Option<Bytes>) {
    if v >= |content| then named == None
    else if IsQuote(content[v]) then
      if named.None? then forall i :: v < i < |content| ==> content[i] != content[v]
      else exists c: nat :: QuotedSpan(content, v, c) && named.value == content[v + 1..c]
    else
      && named.Some?
      && exists c: nat ::
           && v <= c <= |content| && named.value == content[v..c]
           && (forall i :: v <= i < c ==> !EndsLabel(content[i])) && (c < |content| ==> EndsLabel(content[c]))
  }

  lemma {:induction false} QuoteIsFirst(content: Bytes, pos: nat, quote: Byte)
    ensures var r := FindQuote(content, pos, quote);
            forall i :: pos <= i < (if r.Some? then r.value else |content|) ==> content[i] != quote
    decreases |content| - pos
  {
    if pos < |content| && content[pos] != quote {
      QuoteIsFirst(content, pos + 1, quote);
    }
  }

  lemma LabelReads(content: Bytes, pos: nat)
    requires pos <= |content|
    ensures exists v: nat :: Blank(content, pos, v) && (v < |content| ==> !IsWs(content[v]))
                             && IsLabel(content, v, LabelAt(content, pos))
  {
    hide FindQuote;
    var v := SkipWhile(content, pos, IsWs);
    assert Blank(content, pos, v);
    if v < |content| && IsQuote(content[v]) {
      QuoteIsFirst(content, v + 1, content[v]);
      var r := FindQuote(content, v + 1, content[v]);
      assert r.Some? ==> QuotedSpan(content, v, r.value);
    } else if v < |content| {
      var c := SkipWhile(content, v, NotLabelEnd);
      assert LabelAt(content, pos) == Some(content[v..c]);
    }
  }

  /** The `charset` at `i` is followed by `=`, and the label behind it, looked up, gives `r`. */
  ghost predicate Gives(content: Bytes, labels: Labels, i: nat, r: Option<Encoding>) {
    exists s: nat, v: nat, named ::
      && Blank(content, i + |CHARSET|, s) && ByteIs(content, s, EQUALS)
      && Blank(content, s + 1, v) && (v < |content| ==> !IsWs(content[v])) && IsLabel(content, v, named)
      && r == if named.None? then None else labels(named.value)
  }

  /**
   * What a content attribute names: the label behind its leftmost `charset` with an `=`,
   * looked up; nothing without one, or when its quote does not close.
   */
  lemma ExtractedExactly(content: Bytes, labels: Labels)
    ensures (forall i: nat :: !DeclaresAt(content, i)) ==> Extracted(content, labels) == None
    ensures forall i: nat :: DeclaresAt(content, i) && (forall j: nat :: j < i ==> !DeclaresAt(content, j)) ==>
              Gives(content, labels, i, Extracted(content, labels))
  {
    hide LabelAt, Gives, ValueStart, IsWs, ByteIs, CharsetAt, DeclaresAt;
    LeftmostDeclaration(content, 0);
    forall i: nat | DeclaresAt(content, i) && forall j: nat :: j < i ==> !DeclaresAt(content, j)
      ensures Gives(content, labels, i, Extracted(content, labels))
    {
      ExtractedAt(content, labels, i);
    }
  }

  lemma SkipIsBlank(content: Bytes, pos: nat)
    requires pos <= |content|
    ensures Blank(content, pos, SkipWhile(content, pos, IsWs))
  {
  }

  lemma ExtractedAt(content: Bytes, labels: Labels, i: nat)
    requires DeclaresAt(content, i) && forall j: nat :: j < i ==> !DeclaresAt(content, j)
    ensures Gives(content, labels, i, Extracted(content, labels))
  {
    hide LabelAt, IsLabel, ValueStart, IsWs, CharsetAt, Blank;
    LeftmostDeclaration(content, 0);
    var start := ValueStart(content, 0).value;
    var k :| 0 <= k && DeclaresAt(content, k) && start == SkipWhile(content, k + |CHARSET|, IsWs) + 1
             && forall j :: 0 <= j < k ==> !DeclaresAt(content, j);
    assert k == i;
    FoundInside(content, i);
    SkipIsBlank(content, i + |CHARSET|);
    LabelReads(content, start);
    var v: nat :| Blank(content, start, v) && (v < |content| ==> !IsWs(content[v]))
                  && IsLabel(content, v, LabelAt(content, start));
  }

  // ----- whole markup -----

  const META: Bytes := [0x6D, 0x65, 0x74, 0x61]

  /** Text, a comment, a tag with its attributes, or any other declaration up to its `>`. */
  datatype Chunk =
    | Text(bytes: Bytes)
    | Comment(body: Bytes)
    | Tag(closing: bool, name: Bytes, attrs: seq<Written>)
    | Declaration(mark: Byte, body: Bytes)

  function Rendered(c: Chunk): Bytes {
    match c
    case Text(bytes) => bytes
    case Comment(body) => COMMENT_OPEN + (body + [DASH, DASH, GREATER])
    case Tag(closing, name, attrs) => Opening(closing) + (name + (SpelledAll(attrs) + [GREATER]))
    case Declaration(mark, body) => [LESS, mark] + (body + [GREATER])
  }

  function Opening(closing: bool): Bytes {
    if closing then [LESS, SLASH] else [LESS]
  }

  function RenderedAll(chunks: seq<Chunk>): Bytes {
    if chunks == [] then [] else Rendered(chunks[0]) + RenderedAll(chunks[1..])
  }

  /** `-->` ends at `p`. */
  predicate ClosesComment(bytes: Bytes, p: nat) {
    2 <= p < |bytes| && bytes[p] == GREATER && bytes[p - 1] == DASH && bytes[p - 2] == DASH
  }

  /** What each chunk may be made of, so that it ends where it says. */
  predicate ChunkOk(c: Chunk) {
    match c
    case Text(bytes) => LESS !in bytes
    case Comment(body) => forall p :: 4 <= p < |Rendered(c)| - 1 ==> !ClosesComment(Rendered(c), p)
    case Tag(_, name, attrs) =>
      && AllWritten(attrs) && name != [] && IsLetter(name[0])
      && forall i :: 0 <= i < |name| ==> InTagName(name[i]) && name[i] != SLASH
    case Declaration(mark, body) =>
      && GREATER !in body && (mark == BANG || mark == SLASH || mark == QUESTION)
      && (mark == BANG ==> |body| < 2 || body[0] != DASH || body[1] != DASH)
      && (mark == SLASH && body != [] ==> !IsLetter(body[0]))
  }

  predicate AllOk(chunks: seq<Chunk>) {
    forall i :: 0 <= i < |chunks| ==> ChunkOk(chunks[i])
  }

  /** The encoding one chunk declares: only an opening `meta` tag with attributes can. */
  function Declares(c: Chunk, labels: Labels): Option<Encoding> {
    if c.Tag? && !c.closing && LowerAll(c.name) == META && c.attrs != [] then
      match TagRule(AllMeant(c.attrs), labels)
      case None => None
      case Some(e) => Some(Normalized(e))
    else None
  }

  /** The first declaration of all. */
  function FirstDeclared(chunks: seq<Chunk>, labels: Labels): Option<Encoding> {
    if chunks == [] then None
    else if Declares(chunks[0], labels).Some? then Declares(chunks[0], labels)
    else FirstDeclared(chunks[1..], labels)
  }

  // ----- one chunk at a time -----

  lemma {:induction false} TextIsPassed(bytes: Bytes, pos: nat, text: Bytes, labels: Labels)
    requires LESS !in text && Has(bytes, pos, text)
    ensures Scan(bytes, pos, labels) == Scan(bytes, pos + |text|, labels)
    decreases |text|
  {
    hide Scan;
    if text != [] {
      assert bytes[pos + 0] == text[0];
      NotMarkup(bytes, pos, labels);
      assert text == text[..1] + text[1..];
      HasParts(bytes, pos, text[..1], text[1..]);
      TextIsPassed(bytes, pos + 1, text[1..], labels);
    }
  }

  lemma CommentOpens(bytes: Bytes, pos: nat)
    ensures StartsWithAt(bytes, pos, COMMENT_OPEN)
            <==> pos + 4 <= |bytes| && bytes[pos] == LESS && bytes[pos + 1] == BANG && bytes[pos + 2] == DASH
                 && bytes[pos + 3] == DASH
  {
    if pos + 4 <= |bytes| {
      var here := bytes[pos..pos + 4];
      assert here == COMMENT_OPEN <==>
             here[0] == COMMENT_OPEN[0] && here[1] == COMMENT_OPEN[1] && here[2] == COMMENT_OPEN[2]
             && here[3] == COMMENT_OPEN[3];
    }
  }

  lemma NotMarkup(bytes: Bytes, pos: nat, labels: Labels)
    requires pos < |bytes| && bytes[pos] != LESS
    ensures Step(bytes, pos, labels) == Continue(pos) && Scan(bytes, pos, labels) == Scan(bytes, pos + 1, labels)
  {
    CommentOpens(bytes, pos);
  }

  /** The end of a comment is its first `-->`, the dashes of the opening included. */
  lemma {:induction false} CommentEndIs(bytes: Bytes, p: nat, end: nat)
    requires p <= end && ClosesComment(bytes, end) && forall i :: p <= i < end ==> !ClosesComment(bytes, i)
    ensures CommentEnd(bytes, p) == Some(end)
    decreases end - p
  {
    if p < end {
      assert !ClosesComment(bytes, p);
      CommentEndIs(bytes, p + 1, end);
    }
  }

  lemma {:induction false} GreaterIs(bytes: Bytes, p: nat, end: nat)
    requires p <= end && ByteIs(bytes, end, GREATER) && forall i :: p <= i < end ==> bytes[i] != GREATER
    ensures NextGreater(bytes, p) == Some(end)
    decreases end - p
  {
    if p < end {
      GreaterIs(bytes, p + 1, end);
    }
  }

  lemma CommentIsPassed(bytes: Bytes, pos: nat, c: Chunk, labels: Labels)
    requires c.Comment? && ChunkOk(c) && Has(bytes, pos, Rendered(c))
    ensures pos < |bytes| && Step(bytes, pos, labels) == Continue(pos + |Rendered(c)| - 1)
  {
    hide MetaStart, TagNameStart, BangSlashOrQuestion, MetaOutcome, CommentEnd;
    var all := Rendered(c);
    var end := pos + |all| - 1;
    HasParts(bytes, pos, COMMENT_OPEN, c.body + [DASH, DASH, GREATER]);
    HasSlice(bytes, pos, COMMENT_OPEN);
    forall i | 2 <= i < |all| ensures ClosesComment(bytes, pos + i) <==> ClosesComment(all, i) {
      assert bytes[pos + i] == all[i] && bytes[pos + (i - 1)] == all[i - 1] && bytes[pos + (i - 2)] == all[i - 2];
    }
    var closing := [DASH, DASH, GREATER];
    assert all[|all| - 1] == closing[2] && all[|all| - 2] == closing[1] && all[|all| - 3] == closing[0];
    assert ClosesComment(bytes, pos + (|all| - 1));
    forall i | pos + 4 <= i < end ensures !ClosesComment(bytes, i) {
      assert ClosesComment(bytes, pos + (i - pos)) <==> ClosesComment(all, i - pos);
    }
    CommentEndIs(bytes, pos + 4, end);
  }

  lemma DeclarationIsPassed(bytes: Bytes, pos: nat, c: Chunk, labels: Labels)
    requires c.Declaration? && ChunkOk(c) && Has(bytes, pos, Rendered(c))
    ensures pos < |bytes| && Step(bytes, pos, labels) == Continue(pos + |Rendered(c)| - 1)
  {
    hide NextGreater;
    var opening, rest := [LESS, c.mark], c.body + [GREATER];
    var end := pos + 2 + |c.body|;
    HasParts(bytes, pos, opening, rest);
    assert bytes[pos + 0] == opening[0] && bytes[pos + 1] == opening[1];
    forall i | 0 <= i < |rest| ensures bytes[pos + 2 + i] == rest[i] {
    }
    forall i | pos + 2 <= i < end ensures bytes[i] != GREATER {
      assert bytes[pos + 2 + (i - pos - 2)] == rest[i - pos - 2];
    }
    assert bytes[pos + 2 + |c.body|] == rest[|c.body|];
    GreaterIs(bytes, pos + 2, end);
    DeclarationShape(bytes, pos, c);
  }

  /** It opens neither a comment, nor a `meta` tag, nor any other tag. */
  lemma DeclarationShape(bytes: Bytes, pos: nat, c: Chunk)
    requires c.Declaration? && ChunkOk(c) && pos + 2 + |c.body| < |bytes| && ByteIs(bytes, pos + 1, c.mark)
    requires forall i :: 0 <= i < |c.body + [GREATER]| ==> bytes[pos + 2 + i] == (c.body + [GREATER])[i]
    ensures !StartsWithAt(bytes, pos, COMMENT_OPEN) && MetaStart(bytes, pos).None? && TagNameStart(bytes, pos).None?
  {
    var rest := c.body + [GREATER];
    assert bytes[pos + 2 + 0] == rest[0];
    CommentOpens(bytes, pos);
    assert |c.body| > 0 ==> bytes[pos + 2 + 1] == rest[1];
  }

  /** A tag's name and what comes behind it. */
  lemma TagParts(bytes: Bytes, pos: nat, c: Chunk)
    requires c.Tag? && ChunkOk(c) && Has(bytes, pos, Rendered(c))
    ensures var start := pos + |Opening(c.closing)|;
            var end := start + |c.name|;
            && pos < |bytes| && bytes[pos] == LESS && end < |bytes|
            && (c.closing ==> bytes[pos + 1] == SLASH) && Has(bytes, start, c.name)
            && (forall i :: start <= i < end ==> bytes[i] == c.name[i - start])
            && Has(bytes, end, SpelledAll(c.attrs) + [GREATER])
            && bytes[end] == if c.attrs == [] then GREATER else SPACE
  {
    var opening, rest := Opening(c.closing), SpelledAll(c.attrs) + [GREATER];
    var start := pos + |opening|;
    HasParts(bytes, pos, opening, c.name + rest);
    HasParts(bytes, start, c.name, rest);
    assert bytes[pos + 0] == opening[0];
    assert c.closing ==> bytes[pos + 1] == opening[1];
    forall i | start <= i < start + |c.name| ensures bytes[i] == c.name[i - start] {
      assert bytes[start + (i - start)] == c.name[i - start];
    }
    assert bytes[start + |c.name| + 0] == rest[0];
  }

  lemma NoCommentHere(bytes: Bytes, pos: nat)
    requires pos + 1 < |bytes| && bytes[pos + 1] != BANG
    ensures !StartsWithAt(bytes, pos, COMMENT_OPEN)
  {
    CommentOpens(bytes, pos);
  }

  /** A `meta` tag with attributes begins here, or none does. */
  lemma MetaShape(bytes: Bytes, pos: nat, c: Chunk)
    requires c.Tag? && ChunkOk(c) && Has(bytes, pos, Rendered(c))
    ensures MetaStart(bytes, pos)
            == if !c.closing && LowerAll(c.name) == META && c.attrs != [] then Some(pos + 1 + |c.name| + 1) else None
  {
    hide ChunkOk, Rendered, AllWritten, SpelledAll;
    TagParts(bytes, pos, c);
    TagNameOk(c);
    if !c.closing {
      MetaName(bytes, pos + 1, c.name);
    }
  }

  lemma TagNameOk(c: Chunk)
    requires c.Tag? && ChunkOk(c)
    ensures c.name != []
    ensures forall i :: 0 <= i < |c.name| ==> !IsWs(c.name[i]) && c.name[i] != GREATER && c.name[i] != SLASH
  {
  }

  /** The four letters and what comes behind them say whether the name is `meta`. */
  lemma MetaName(bytes: Bytes, start: nat, name: Bytes)
    requires start + |name| < |bytes| && forall i :: start <= i < start + |name| ==> bytes[i] == name[i - start]
    requires forall i :: 0 <= i < |name| ==> !IsWs(name[i]) && name[i] != GREATER && name[i] != SLASH
    requires bytes[start + |name|] == GREATER || bytes[start + |name|] == SPACE
    ensures && EitherCase(bytes, start, 0x6D) && EitherCase(bytes, start + 1, 0x65)
            && EitherCase(bytes, start + 2, 0x74) && EitherCase(bytes, start + 3, 0x61)
            && start + 4 < |bytes| && IsWsOrSlash(bytes[start + 4])
            <==> LowerAll(name) == META && bytes[start + |name|] == SPACE
  {
    var lower := LowerAll(name);
    assert forall i :: 0 <= i < |name| ==> bytes[start + i] == name[i];
    if |name| == 4 {
      assert lower == META <==> lower[0] == META[0] && lower[1] == META[1] && lower[2] == META[2]
                                && lower[3] == META[3];
    } else if |name| > 4 {
      assert bytes[start + 4] == name[4];
    } else {
      var end := bytes[start + |name|];
      assert Lower(end) == end;
    }
  }

  lemma TagShape(bytes: Bytes, pos: nat, c: Chunk)
    requires c.Tag? && ChunkOk(c) && Has(bytes, pos, Rendered(c))
    ensures pos < |bytes| && !StartsWithAt(bytes, pos, COMMENT_OPEN)
    ensures TagNameStart(bytes, pos) == Some(pos + |Opening(c.closing)|)
    ensures SkipWhile(bytes, pos + |Opening(c.closing)|, InTagName) == pos + |Opening(c.closing)| + |c.name|
  {
    TagParts(bytes, pos, c);
    var start := pos + |Opening(c.closing)|;
    assert bytes[start] == c.name[0];
    NoCommentHere(bytes, pos);
    SkipTo(bytes, start, start + |c.name|, InTagName);
  }

  /** The space in front of the first attribute is taken with the tag's name. */
  lemma MetaReads(bytes: Bytes, pos: nat, c: Chunk, labels: Labels)
    requires c.Tag? && ChunkOk(c) && Has(bytes, pos, Rendered(c))
    ensures var end := pos + |Opening(c.closing)| + |c.name|;
            && AttributesFrom(bytes, end) == Ended(AllMeant(c.attrs), pos + |Rendered(c)| - 1)
            && (c.attrs != [] ==> AttributesFrom(bytes, end + 1) == AttributesFrom(bytes, end))
  {
    hide SpelledAll, AllMeant, AllWritten, AttributesFrom;
    TagParts(bytes, pos, c);
    var end := pos + |Opening(c.closing)| + |c.name|;
    AttributesReadBack(bytes, end, c.attrs);
    if c.attrs != [] {
      SpaceIsSkipped(bytes, end);
    }
  }

  lemma TagIsRead(bytes: Bytes, pos: nat, c: Chunk, labels: Labels)
    requires c.Tag? && ChunkOk(c) && Has(bytes, pos, Rendered(c))
    ensures pos < |bytes|
    ensures Step(bytes, pos, labels)
            == if Declares(c, labels).Some? then Decided(Declares(c, labels).value)
               else Continue(pos + |Rendered(c)| - 1)
  {
    hide StartsWithAt, MetaStart, TagNameStart, BangSlashOrQuestion, AttributesFrom, TagRule, SkipWhile, ChunkOk,
         Rendered, AllMeant;
    TagShape(bytes, pos, c);
    MetaShape(bytes, pos, c);
    MetaReads(bytes, pos, c, labels);
    TagGoesOn(bytes, pos, c);
  }

  lemma TagGoesOn(bytes: Bytes, pos: nat, c: Chunk)
    requires c.Tag? && ChunkOk(c) && Has(bytes, pos, Rendered(c))
    ensures pos + |Opening(c.closing)| + |c.name| < |bytes|
  {
    TagParts(bytes, pos, c);
  }

  /** Scanning from the start of a chunk: its declaration, or on from behind it. */
  lemma ChunkReads(bytes: Bytes, pos: nat, c: Chunk, labels: Labels)
    requires ChunkOk(c) && Has(bytes, pos, Rendered(c))
    ensures Scan(bytes, pos, labels)
            == if Declares(c, labels).Some? then Declares(c, labels) else Scan(bytes, pos + |Rendered(c)|, labels)
  {
    hide Step, ChunkOk, Rendered;
    match c {
      case Text(text) => TextReads(bytes, pos, c, labels);
      case Comment(_) => CommentIsPassed(bytes, pos, c, labels);
      case Tag(_, _, _) => TagIsRead(bytes, pos, c, labels);
      case Declaration(_, _) => DeclarationIsPassed(bytes, pos, c, labels);
    }
  }

  lemma TextReads(bytes: Bytes, pos: nat, c: Chunk, labels: Labels)
    requires c.Text? && ChunkOk(c) && Has(bytes, pos, Rendered(c))
    ensures Scan(bytes, pos, labels) == Scan(bytes, pos + |Rendered(c)|, labels)
  {
    hide Scan;
    TextIsPassed(bytes, pos, c.bytes, labels);
  }

  lemma {:induction false} ChunksRead(bytes: Bytes, pos: nat, chunks: seq<Chunk>, labels: Labels)
    requires AllOk(chunks) && Has(bytes, pos, RenderedAll(chunks))
    ensures Scan(bytes, pos, labels)
            == if FirstDeclared(chunks, labels).Some? then FirstDeclared(chunks, labels)
               else Scan(bytes, pos + |RenderedAll(chunks)|, labels)
    decreases |chunks|
  {
    hide Scan, ChunkOk, Rendered, Declares;
    if chunks != [] {
      HasParts(bytes, pos, Rendered(chunks[0]), RenderedAll(chunks[1..]));
      ChunkReads(bytes, pos, chunks[0], labels);
      ChunksRead(bytes, pos + |Rendered(chunks[0])|, chunks[1..], labels);
    }
  }

  /**
   * Whatever markup a document begins with, as far as the window reaches: the scan answers
   * its first declaration, and without one goes on exactly behind it.
   */
  lemma MarkupIsRead(chunks: seq<Chunk>, rest: Bytes, labels: Labels)
    requires AllOk(chunks) && |RenderedAll(chunks)| <= PRESCAN_LIMIT
    ensures var bytes := RenderedAll(chunks) + rest;
            Prescanned(bytes, labels)
            == if FirstDeclared(chunks, labels).Some? then FirstDeclared(chunks, labels)
               else Scan(Window(bytes), |RenderedAll(chunks)|, labels)
  {
    hide Scan, ChunkOk, FirstDeclared;
    var markup := RenderedAll(chunks);
    var window := Window(markup + rest);
    assert Has(window, 0, markup);
    ChunksRead(window, 0, chunks, labels);
  }

  // ----- a declared charset -----

  /** The encoding a looked-up label comes to, for a document read as single bytes. */
  function Replaced(e: Option<Encoding>): Option<Encoding> {
    match e
    case None => None
    case Some(f) =>
      if f == Utf16Be || f == Utf16Le then Some(Utf8) else if f == XUserDefined then Some(Windows1252) else Some(f)
  }

  /** `<meta charset=` and the quoted label and `>`, the words in any case. */
  function CharsetTag(name: Bytes, word: Bytes, quote: Byte, value: Bytes): Chunk {
    Tag(false, name, [Quoted(word, quote, value)])
  }

  /**
   * Every label written as a `meta` tag's `charset` is looked up in lower case, in front of
   * anything; with an unknown one the scan goes on behind the tag.
   */
  lemma CharsetRoundTrip(name: Bytes, word: Bytes, quote: Byte, value: Bytes, rest: Bytes, labels: Labels)
    requires LowerAll(name) == META && LowerAll(word) == CHARSET && IsQuote(quote) && quote !in value
    requires |name| + |word| + |value| + 6 <= PRESCAN_LIMIT
    ensures var tag := [LESS] + name + [SPACE] + word + [EQUALS, quote] + value + [quote, GREATER];
            && |tag| == |name| + |word| + |value| + 6
            && Prescanned(tag + rest, labels)
               == if labels(LowerAll(value)).Some? then Replaced(labels(LowerAll(value)))
                  else Scan(Window(tag + rest), |tag|, labels)
  {
    hide Scan, ChunkOk, WrittenOk, Spelled, Rendered, TagRule;
    var c := CharsetTag(name, word, quote, value);
    CharsetTagIs(name, word, quote, value);
    assert RenderedAll([c]) == Rendered(c) by {
      assert [c][1..] == [];
    }
    MarkupIsRead([c], rest, labels);
    CharsetRule(word, quote, value, labels);
    assert FirstDeclared([c][1..], labels) == None;
  }

  lemma CharsetTagIs(name: Bytes, word: Bytes, quote: Byte, value: Bytes)
    requires LowerAll(name) == META && LowerAll(word) == CHARSET && IsQuote(quote) && quote !in value
    ensures var c := CharsetTag(name, word, quote, value);
            && ChunkOk(c)
            && Rendered(c) == [LESS] + name + [SPACE] + word + [EQUALS, quote] + value + [quote, GREATER]
  {
    hide WrittenOk, Spelled;
    var w := Quoted(word, quote, value);
    WordWritten(word, quote, value);
    assert |name| == |META|;
    forall i | 0 <= i < |name| ensures IsLetter(name[i]) {
      assert Lower(name[i]) == META[i];
    }
    assert [w][1..] == [];
    assert SpelledAll([w]) == [SPACE] + Spelled(w);
    var spelled := word + [EQUALS, quote] + value + [quote];
    assert [LESS] + (name + ([SPACE] + spelled + [GREATER]))
        == [LESS] + name + [SPACE] + word + [EQUALS, quote] + value + [quote, GREATER];
  }

  lemma WordWritten(word: Bytes, quote: Byte, value: Bytes)
    requires LowerAll(word) == CHARSET && IsQuote(quote) && quote !in value
    ensures var w := Quoted(word, quote, value);
            WrittenOk(w) && Spelled(w) == word + [EQUALS, quote] + value + [quote]
  {
    assert |word| == |CHARSET|;
    forall i | 0 <= i < |word| ensures !EndsName(word[i]) {
      assert Lower(word[i]) == CHARSET[i];
    }
  }

  lemma CharsetRule(word: Bytes, quote: Byte, value: Bytes, labels: Labels)
    requires LowerAll(word) == CHARSET
    ensures TagRule(AllMeant([Quoted(word, quote, value)]), labels) == labels(LowerAll(value))
  {
    var ws := [Quoted(word, quote, value)];
    assert ws[1..] == [];
    assert AllMeant(ws) == [Attribute(CHARSET, LowerAll(value))];
  }
}
