/**
 * The `<meta>` prescan: a byte scanner over the first 1024 bytes of a document
 * that looks for a declared encoding before anything is tokenized (section
 * 13.2.3.2 of the HTML Standard, and "extracting a character encoding from a
 * meta element").
 */
module Prescan {
  import opened Wrappers

  type Byte = x: int | 0 <= x < 256
  type Bytes = seq<Byte>

  /** The encodings the scan treats specially, and all others by name. */
  datatype Encoding = Utf8 | Utf16Be | Utf16Le | XUserDefined | Windows1252 | Other(name: string)

  /** The label table of the Encoding Standard. */
  type Labels = Bytes -> Option<Encoding>

  const PRESCAN_LIMIT: nat := 1024

  const TAB: Byte := 0x09
  const LF: Byte := 0x0A
  const FF: Byte := 0x0C
  const CR: Byte := 0x0D
  const SPACE: Byte := 0x20
  const BANG: Byte := 0x21
  const DOUBLE_QUOTE: Byte := 0x22
  const SINGLE_QUOTE: Byte := 0x27
  const DASH: Byte := 0x2D
  const SLASH: Byte := 0x2F
  const SEMICOLON: Byte := 0x3B
  const LESS: Byte := 0x3C
  const EQUALS: Byte := 0x3D
  const GREATER: Byte := 0x3E
  const QUESTION: Byte := 0x3F

  const HTTP_EQUIV: Bytes := [0x68, 0x74, 0x74, 0x70, 0x2D, 0x65, 0x71, 0x75, 0x69, 0x76]
  const CONTENT_TYPE: Bytes := [0x63, 0x6F, 0x6E, 0x74, 0x65, 0x6E, 0x74, 0x2D, 0x74, 0x79, 0x70, 0x65]
  const CONTENT: Bytes := [0x63, 0x6F, 0x6E, 0x74, 0x65, 0x6E, 0x74]
  const CHARSET: Bytes := [0x63, 0x68, 0x61, 0x72, 0x73, 0x65, 0x74]
  const COMMENT_OPEN: Bytes := [LESS, BANG, DASH, DASH]

  // ----- bytes -----

  predicate IsWs(b: Byte) {
    b == TAB || b == LF || b == FF || b == CR || b == SPACE
  }

  predicate IsWsOrSlash(b: Byte) {
    IsWs(b) || b == SLASH
  }

  predicate IsLetter(b: Byte) {
    0x41 <= b <= 0x5A || 0x61 <= b <= 0x7A
  }

  function Lower(b: Byte): Byte {
    if 0x41 <= b <= 0x5A then b + 0x20 else b
  }

  predicate ByteIs(bytes: Bytes, pos: nat, b: Byte) {
    pos < |bytes| && bytes[pos] == b
  }

  predicate StartsWithAt(bytes: Bytes, pos: nat, needle: Bytes) {
    pos + |needle| <= |bytes| && bytes[pos..pos + |needle|] == needle
  }

  /** The first position from `pos` on whose byte is not skipped; the end if there is none. */
  function SkipWhile(bytes: Bytes, pos: nat, skip: Byte -> bool): (r: nat)
    ensures pos <= r && (pos <= |bytes| ==> r <= |bytes|)
    ensures r < |bytes| ==> !skip(bytes[r])
    ensures forall i :: pos <= i < r ==> i < |bytes| && skip(bytes[i])
    decreases |bytes| - pos
  {
    if pos < |bytes| && skip(bytes[pos]) then SkipWhile(bytes, pos + 1, skip) else pos
  }

  method Skip(bytes: Bytes, pos: nat, skip: Byte -> bool) returns (r: nat)
    ensures r == SkipWhile(bytes, pos, skip)
  {
    r := pos;
    while r < |bytes| && skip(bytes[r])
      invariant SkipWhile(bytes, r, skip) == SkipWhile(bytes, pos, skip)
      decreases |bytes| - r
    {
      r := r + 1;
    }
  }

  // ----- get an attribute -----

  datatype Attribute = Attribute(name: Bytes, value: Bytes)

  /** An attribute and where it ended; the `>` that ends the tag; or the window is exhausted. */
  datatype Sniffed = Found(attr: Attribute, next: nat) | NoAttr(next: nat) | Eof

  /** A quoted value up to and including its closing quote, lowercased. */
  function Quoted(bytes: Bytes, pos: nat, quote: Byte, name: Bytes, value: Bytes): (r: Sniffed)
    ensures !r.NoAttr? && (r.Found? ==> r.attr.name == name && pos < r.next <= |bytes|)
    decreases |bytes| - pos
  {
    if pos >= |bytes| then Eof
    else if bytes[pos] == quote then Found(Attribute(name, value), pos + 1)
    else Quoted(bytes, pos + 1, quote, name, value + [Lower(bytes[pos])])
  }

  /** An unquoted value up to whitespace or `>`. */
  function Bare(bytes: Bytes, pos: nat, name: Bytes, value: Bytes): (r: Sniffed)
    ensures !r.NoAttr? && (r.Found? ==> r.attr.name == name && pos <= r.next < |bytes|)
    decreases |bytes| - pos
  {
    if pos >= |bytes| then Eof
    else if IsWs(bytes[pos]) || bytes[pos] == GREATER then Found(Attribute(name, value), pos)
    else Bare(bytes, pos + 1, name, value + [Lower(bytes[pos])])
  }

  /** What follows a confirmed `=`. */
  function ValueAt(bytes: Bytes, pos: nat, name: Bytes): (r: Sniffed)
    ensures !r.NoAttr? && (r.Found? ==> r.attr.name == name && pos <= r.next <= |bytes|)
  {
    var p := SkipWhile(bytes, pos, IsWs);
    if p >= |bytes| then Eof
    else if bytes[p] == DOUBLE_QUOTE || bytes[p] == SINGLE_QUOTE then Quoted(bytes, p + 1, bytes[p], name, [])
    else if bytes[p] == GREATER then Found(Attribute(name, []), p)
    else Bare(bytes, p, name, [])
  }

  /** Whitespace has ended the name; an `=` may still follow. */
  function AfterName(bytes: Bytes, pos: nat, name: Bytes): (r: Sniffed)
    ensures !r.NoAttr? && (r.Found? ==> r.attr.name == name && pos <= r.next <= |bytes|)
  {
    var p := SkipWhile(bytes, pos, IsWs);
    if p >= |bytes| then Eof
    else if bytes[p] == EQUALS then ValueAt(bytes, p + 1, name)
    else Found(Attribute(name, []), p)
  }

  /** The rest of a name; an `=` only ends a name that has begun. */
  function NameAt(bytes: Bytes, pos: nat, name: Bytes): (r: Sniffed)
    ensures !r.NoAttr? && (r.Found? ==> name <= r.attr.name && pos <= r.next <= |bytes|)
    decreases |bytes| - pos
  {
    if pos >= |bytes| then Eof
    else if bytes[pos] == EQUALS && name != [] then ValueAt(bytes, pos + 1, name)
    else if IsWs(bytes[pos]) then AfterName(bytes, pos, name)
    else if bytes[pos] == SLASH || bytes[pos] == GREATER then Found(Attribute(name, []), pos)
    else NameAt(bytes, pos + 1, name + [Lower(bytes[pos])])
  }

  function AttributeAt(bytes: Bytes, pos: nat): Sniffed {
    var p := SkipWhile(bytes, pos, IsWsOrSlash);
    if p >= |bytes| then Eof
    else if bytes[p] == GREATER then NoAttr(p)
    else NameAt(bytes, p, [])
  }

  /** Every attribute found has a name and moves the scan on; the tag's end is a `>` not yet passed. */
  lemma AttributeProgress(bytes: Bytes, pos: nat)
    ensures var r := AttributeAt(bytes, pos);
            && (r.Found? ==> r.attr.name != [] && pos < r.next <= |bytes|)
            && (r.NoAttr? ==> pos <= r.next < |bytes| && bytes[r.next] == GREATER)
  {
    var p := SkipWhile(bytes, pos, IsWsOrSlash);
    if p < |bytes| && bytes[p] != GREATER {
      assert !IsWsOrSlash(bytes[p]);
      assert [] + [Lower(bytes[p])] == [Lower(bytes[p])];
      assert NameAt(bytes, p, []) == NameAt(bytes, p + 1, [Lower(bytes[p])]);
    }
  }

  method ReadAttributeValue(bytes: Bytes, pos: nat, name: Bytes) returns (r: Sniffed)
    ensures r == ValueAt(bytes, pos, name)
  {
    var p := Skip(bytes, pos, IsWs);
    if p >= |bytes| {
      return Eof;
    }
    var value := [];
    if bytes[p] == DOUBLE_QUOTE || bytes[p] == SINGLE_QUOTE {
      var quote := bytes[p];
      p := p + 1;
      while p < |bytes|
        invariant Quoted(bytes, p, quote, name, value) == ValueAt(bytes, pos, name)
        decreases |bytes| - p
      {
        if bytes[p] == quote {
          return Found(Attribute(name, value), p + 1);
        }
        value := value + [Lower(bytes[p])];
        p := p + 1;
      }
      return Eof;
    }
    if bytes[p] == GREATER {
      return Found(Attribute(name, []), p);
    }
    while p < |bytes|
      invariant Bare(bytes, p, name, value) == ValueAt(bytes, pos, name)
      decreases |bytes| - p
    {
      if IsWs(bytes[p]) || bytes[p] == GREATER {
        return Found(Attribute(name, value), p);
      }
      value := value + [Lower(bytes[p])];
      p := p + 1;
    }
    r := Eof;
  }

  method AfterNameWhitespace(bytes: Bytes, pos: nat, name: Bytes) returns (r: Sniffed)
    ensures r == AfterName(bytes, pos, name)
  {
    var p := Skip(bytes, pos, IsWs);
    if p >= |bytes| {
      return Eof;
    }
    if bytes[p] == EQUALS {
      r := ReadAttributeValue(bytes, p + 1, name);
    } else {
      r := Found(Attribute(name, []), p);
    }
  }

  method GetAttribute(bytes: Bytes, pos: nat) returns (r: Sniffed)
    ensures r == AttributeAt(bytes, pos)
  {
    hide IsWs, IsWsOrSlash;
    var p := Skip(bytes, pos, IsWsOrSlash);
    if p >= |bytes| {
      return Eof;
    }
    if bytes[p] == GREATER {
      return NoAttr(p);
    }
    var name := [];
    while p < |bytes|
      invariant NameAt(bytes, p, name) == AttributeAt(bytes, pos)
      decreases |bytes| - p
    {
      var b := bytes[p];
      if b == EQUALS && name != [] {
        r := ReadAttributeValue(bytes, p + 1, name);
        return;
      }
      if IsWs(b) {
        r := AfterNameWhitespace(bytes, p, name);
        return;
      }
      if b == SLASH || b == GREATER {
        return Found(Attribute(name, []), p);
      }
      name := name + [Lower(b)];
      p := p + 1;
    }
    r := Eof;
  }

  // ----- the encoding named by a content attribute -----

  predicate CharsetAt(content: Bytes, i: nat) {
    StartsWithAt(content, i, CHARSET)
  }

  function FindCharset(content: Bytes, from: nat): (r: Option<nat>)
    ensures r.Some? ==> from <= r.value && CharsetAt(content, r.value) && forall i :: from <= i < r.value ==>
            !CharsetAt(content, i)
    ensures r.None? ==> forall i :: from <= i ==> !CharsetAt(content, i)
    decreases |content| - from
  {
    if from >= |content| then None
    else if CharsetAt(content, from) then Some(from)
    else FindCharset(content, from + 1)
  }

  /** Just past the `=` of the first `charset` that one follows; a `charset` without one sends the search on past it. */
  function ValueStart(content: Bytes, from: nat): (r: Option<nat>)
    decreases |content| - from
  {
    match FindCharset(content, from)
    case None => None
    case Some(found) =>
      var p := SkipWhile(content, found + |CHARSET|, IsWs);
      if ByteIs(content, p, EQUALS) then Some(p + 1) else ValueStart(content, p)
  }

  /** `charset`, optional whitespace, `=`. */
  predicate DeclaresAt(content: Bytes, i: nat) {
    CharsetAt(content, i) && ByteIs(content, SkipWhile(content, i + |CHARSET|, IsWs), EQUALS)
  }

  lemma CharsetStarts(content: Bytes, j: nat)
    requires j < |content| && content[j] != CHARSET[0]
    ensures !CharsetAt(content, j)
  {
    if j + |CHARSET| <= |content| {
      assert content[j..j + |CHARSET|][0] == content[j];
    }
  }

  /** `charset` never overlaps itself, nor whitespace: none starts inside one, or in the space behind it. */
  lemma CharsetsApart(content: Bytes, i: nat, j: nat)
    requires CharsetAt(content, i) && i < j < SkipWhile(content, i + |CHARSET|, IsWs)
    ensures !CharsetAt(content, j)
  {
    if j < i + |CHARSET| {
      assert content[j] == content[i..i + |CHARSET|][j - i] == CHARSET[j - i];
    } else {
      assert IsWs(content[j]);
    }
    CharsetStarts(content, j);
  }

  /** Jumping past a failed `charset` loses nothing: the search finds the leftmost declaration there is. */
  lemma {:induction false} LeftmostDeclaration(content: Bytes, from: nat)
    ensures var r := ValueStart(content, from);
            if r.None? then forall i :: from <= i ==> !DeclaresAt(content, i)
            else exists i ::
                   && from <= i && DeclaresAt(content, i) && r.value == SkipWhile(content, i + |CHARSET|, IsWs) + 1
                   && forall j :: from <= j < i ==> !DeclaresAt(content, j)
    decreases |content| - from
  {
    hide IsWs, ByteIs, CharsetAt;
    var found := FindCharset(content, from);
    if found.Some? {
      var p := SkipWhile(content, found.value + |CHARSET|, IsWs);
      if ByteIs(content, p, EQUALS) {
        assert DeclaresAt(content, found.value);
      } else {
        FoundInside(content, found.value);
        LeftmostDeclaration(content, p);
        forall i | from <= i < p ensures !DeclaresAt(content, i) {
          if found.value < i { CharsetsApart(content, found.value, i); }
        }
      }
    }
  }

  lemma FoundInside(content: Bytes, i: nat)
    requires CharsetAt(content, i)
    ensures i + |CHARSET| <= |content|
  {
  }

  function FindQuote(content: Bytes, pos: nat, quote: Byte): (r: Option<nat>)
    ensures r.Some? ==> pos <= r.value < |content| && content[r.value] == quote
    decreases |content| - pos
  {
    if pos >= |content| then None else if content[pos] == quote then Some(pos) else FindQuote(content, pos + 1, quote)
  }

  predicate NotLabelEnd(b: Byte) {
    !IsWs(b) && b != SEMICOLON
  }

  /** The label after the `=`: quoted, and then it must be closed, or up to whitespace or `;`. */
  function LabelAt(content: Bytes, pos: nat): Option<Bytes> {
    var p := SkipWhile(content, pos, IsWs);
    if p >= |content| then None
    else if content[p] == DOUBLE_QUOTE || content[p] == SINGLE_QUOTE then
      match FindQuote(content, p + 1, content[p])
      case None => None
      case Some(end) => Some(content[p + 1..end])
    else Some(content[p..SkipWhile(content, p, NotLabelEnd)])
  }

  function Extracted(content: Bytes, labels: Labels): Option<Encoding> {
    match ValueStart(content, 0)
    case None => None
    case Some(p) =>
      match LabelAt(content, p)
      case None => None
      case Some(name) => labels(name)
  }

  lemma QuoteFurther(content: Bytes, pos: nat, quote: Byte)
    ensures FindQuote(content, pos, quote) ==
            if pos >= |content| then None else if content[pos] == quote then Some(pos)
                else FindQuote(content, pos + 1, quote)
  {
  }

  method FindValueStart(content: Bytes) returns (r: Option<nat>)
    ensures r == ValueStart(content, 0)
  {
    hide IsWs, CharsetAt;
    var from: nat := 0;
    while true
      invariant ValueStart(content, from) == ValueStart(content, 0)
      decreases |content| - from
    {
      var found := FindCharset(content, from);
      if found.None? {
        return None;
      }
      FoundInside(content, found.value);
      var p := Skip(content, found.value + |CHARSET|, IsWs);
      if ByteIs(content, p, EQUALS) {
        return Some(p + 1);
      }
      from := p;
    }
  }

  method ReadLabel(content: Bytes, pos: nat) returns (r: Option<Bytes>)
    ensures r == LabelAt(content, pos)
  {
    hide IsWs, FindQuote, NotLabelEnd;
    var p := Skip(content, pos, IsWs);
    if p >= |content| {
      return None;
    }
    if content[p] == DOUBLE_QUOTE || content[p] == SINGLE_QUOTE {
      var end := p + 1;
      while end < |content| && content[end] != content[p]
        invariant p < end <= |content|
        invariant FindQuote(content, end, content[p]) == FindQuote(content, p + 1, content[p])
      {
        QuoteFurther(content, end, content[p]);
        end := end + 1;
      }
      QuoteFurther(content, end, content[p]);
      r := if end >= |content| then None else Some(content[p + 1..end]);
    } else {
      var end := Skip(content, p, NotLabelEnd);
      r := Some(content[p..end]);
    }
  }

  method ExtractEncoding(content: Bytes, labels: Labels) returns (r: Option<Encoding>)
    ensures r == Extracted(content, labels)
  {
    hide ValueStart, LabelAt;
    var start := FindValueStart(content);
    if start.None? {
      return None;
    }
    var name := ReadLabel(content, start.value);
    r := if name.None? then None else labels(name.value);
  }

  // ----- one meta tag -----

  /** The attributes up to the tag's `>`, in order, or none if the window ends first. */
  datatype TagAttributes = Ended(attrs: seq<Attribute>, next: nat) | Unended

  function AttributesFrom(bytes: Bytes, pos: nat): (r: TagAttributes)
    ensures r.Ended? ==> pos <= r.next && ByteIs(bytes, r.next, GREATER)
    decreases |bytes| - pos
  {
    AttributeProgress(bytes, pos);
    match AttributeAt(bytes, pos)
    case Eof => Unended
    case NoAttr(next) => Ended([], next)
    case Found(attr, next) =>
      match AttributesFrom(bytes, next)
      case Unended => Unended
      case Ended(attrs, end) => Ended([attr] + attrs, end)
  }

  /** The value of the first attribute of that name. */
  function First(attrs: seq<Attribute>, name: Bytes): Option<Bytes> {
    if attrs == [] then None
    else if attrs[0].name == name then Some(attrs[0].value)
    else First(attrs[1..], name)
  }

  /**
   * What a tag decides, whatever the order of its attributes: an explicit
   * `charset` alone, even one that names nothing; without it, what `content`
   * names, if the tag also says `http-equiv=content-type`.
   */
  function TagRule(attrs: seq<Attribute>, labels: Labels): Option<Encoding> {
    match First(attrs, CHARSET)
    case Some(name) => labels(name)
    case None =>
      match First(attrs, CONTENT)
      case None => None
      case Some(content) => if First(attrs, HTTP_EQUIV) == Some(CONTENT_TYPE) then Extracted(content, labels) else None
  }

  /** A UTF-16 declaration cannot be true of bytes read this far; the other replacement is the web's. */
  function Normalized(e: Encoding): (r: Encoding)
    ensures !r.Utf16Be? && !r.Utf16Le? && !r.XUserDefined?
  {
    match e
    case Utf16Be => Utf8
    case Utf16Le => Utf8
    case XUserDefined => Windows1252
    case _ => e
  }

  datatype Outcome = Continue(next: nat) | Decided(encoding: Encoding) | Abort

  function MetaOutcome(bytes: Bytes, pos: nat, labels: Labels): Outcome {
    match AttributesFrom(bytes, pos)
    case Unended => Abort
    case Ended(attrs, next) =>
      match TagRule(attrs, labels)
      case Some(e) => Decided(Normalized(e))
      case None => Continue(next)
  }

  lemma {:induction false} FirstAdd(attrs: seq<Attribute>, attr: Attribute, name: Bytes)
    ensures First(attrs + [attr], name) ==
            if First(attrs, name).Some? then First(attrs, name) else if attr.name == name then Some(attr.value)
                else None
  {
    if attrs == [] {
      assert attrs + [attr] == [attr];
      assert First([attr][1..], name) == None;
    } else {
      FirstAdd(attrs[1..], attr, name);
      assert (attrs + [attr])[1..] == attrs[1..] + [attr];
    }
  }

  lemma {:induction false} FirstIsListed(attrs: seq<Attribute>, name: Bytes)
    ensures First(attrs, name).Some? <==> exists i :: 0 <= i < |attrs| && attrs[i].name == name
  {
    if attrs != [] {
      FirstIsListed(attrs[1..], name);
      if i :| 0 < i < |attrs| && attrs[i].name == name {
        assert attrs[1..][i - 1].name == name;
      }
      if i :| 0 <= i < |attrs[1..]| && attrs[1..][i].name == name {
        assert attrs[i + 1].name == name;
      }
    }
  }

  /** The running variables of the attribute loop, said of the attributes seen so far. */
  predicate Running(attrs: seq<Attribute>, labels: Labels, gotPragma: bool, needPragma: Option<bool>,
                    charset: Option<Option<Encoding>>) {
    && (gotPragma <==> First(attrs, HTTP_EQUIV) == Some(CONTENT_TYPE))
    && (var explicit := First(attrs, CHARSET);
        var content := First(attrs, CONTENT);
        if explicit.Some? then needPragma == Some(false) && charset == Some(labels(explicit.value))
        else if content.Some? && Extracted(content.value, labels).Some? then
          needPragma == Some(true) && charset == Some(Extracted(content.value, labels))
        else needPragma == None && charset == None)
  }

  /** `seen` holds exactly the names met so far. */
  ghost predicate SeenNames(seen: seq<Bytes>, attrs: seq<Attribute>) {
    forall name {:trigger name in seen} {:trigger First(attrs, name)} :: name in seen <==> First(attrs, name).Some?
  }

  lemma SeenIsFirst(seen: seq<Bytes>, attrs: seq<Attribute>, name: Bytes)
    requires SeenNames(seen, attrs)
    ensures name in seen <==> First(attrs, name).Some?
  {
  }

  lemma NamesDiffer()
    ensures HTTP_EQUIV != CONTENT && HTTP_EQUIV != CHARSET && CONTENT != CHARSET
  {
    assert |HTTP_EQUIV| == 10 && |CONTENT| == 7 && CONTENT[1] != CHARSET[1];
  }

  function Joined(attrs: seq<Attribute>, rest: TagAttributes): TagAttributes {
    match rest
    case Unended => Unended
    case Ended(more, next) => Ended(attrs + more, next)
  }

  lemma JoinedStep(attrs: seq<Attribute>, bytes: Bytes, pos: nat)
    requires AttributeAt(bytes, pos).Found?
    ensures var found := AttributeAt(bytes, pos);
            Joined(attrs, AttributesFrom(bytes, pos)) == Joined(attrs + [found.attr], AttributesFrom(bytes, found.next))
  {
    hide AttributeAt;
    AttributeProgress(bytes, pos);
    var found := AttributeAt(bytes, pos);
    match AttributesFrom(bytes, found.next) {
      case Unended =>
      case Ended(more, next) => assert attrs + ([found.attr] + more) == (attrs + [found.attr]) + more;
    }
  }

  lemma FirstsAdd(attrs: seq<Attribute>, attr: Attribute)
    ensures forall name {:trigger First(attrs + [attr], name)} ::
              First(attrs + [attr], name) ==
              if First(attrs, name).Some? then First(attrs, name) else if attr.name == name then Some(attr.value)
                  else None
  {
    forall name ensures First(attrs + [attr], name) ==
                        if First(attrs, name).Some? then First(attrs, name)
                            else if attr.name == name then Some(attr.value) else None {
      FirstAdd(attrs, attr, name);
    }
  }

  lemma SeenAdd(seen: seq<Bytes>, attrs: seq<Attribute>, attr: Attribute)
    requires SeenNames(seen, attrs)
    ensures SeenNames(if attr.name in seen then seen else seen + [attr.name], attrs + [attr])
  {
    hide First;
    FirstsAdd(attrs, attr);
  }

  /** The attribute loop of one tag decides by the order-free rule. */
  method ScanMetaAttributes(bytes: Bytes, pos: nat, labels: Labels) returns (r: Outcome)
    ensures r == MetaOutcome(bytes, pos, labels)
  {
    hide AttributeAt, AttributesFrom, First, Extracted, SeenNames, Normalized;
    var p := pos;
    var seen: seq<Bytes> := [];
    var gotPragma := false;
    var needPragma: Option<bool> := None;
    var charset: Option<Option<Encoding>> := None;
    ghost var attrs: seq<Attribute> := [];
    NothingSeen();
    while true
      invariant Joined(attrs, AttributesFrom(bytes, p)) == AttributesFrom(bytes, pos)
      invariant SeenNames(seen, attrs) && Running(attrs, labels, gotPragma, needPragma, charset)
      decreases |bytes| - p
    {
      var sniffed := GetAttribute(bytes, p);
      AttributeProgress(bytes, p);
      if sniffed.Eof? {
        NoMoreAttributes(bytes, p);
        return Abort;
      }
      if sniffed.NoAttr? {
        NoMoreAttributes(bytes, p);
        assert attrs + [] == attrs;
        p := sniffed.next;
        break;
      }
      var attr := sniffed.attr;
      JoinedStep(attrs, bytes, p);
      p := sniffed.next;
      FirstsAdd(attrs, attr);
      SeenIsFirst(seen, attrs, attr.name);
      SeenAdd(seen, attrs, attr);
      NamesDiffer();
      attrs := attrs + [attr];
      if attr.name in seen {
        continue;
      }
      seen := seen + [attr.name];
      if attr.name == HTTP_EQUIV {
        if attr.value == CONTENT_TYPE {
          gotPragma := true;
        }
      } else if attr.name == CONTENT {
        if charset.None? {
          var e := ExtractEncoding(attr.value, labels);
          if e.Some? {
            charset := Some(Some(e.value));
            needPragma := Some(true);
          }
        }
      } else if attr.name == CHARSET {
        charset := Some(labels(attr.value));
        needPragma := Some(false);
      }
    }
    if needPragma == None || (needPragma == Some(true) && !gotPragma) {
      return Continue(p);
    }
    r := if charset.Some? && charset.value.Some? then Decided(Normalized(charset.value.value)) else Continue(p);
  }

  lemma NothingSeen()
    ensures SeenNames([], []) && forall name :: First([], name) == None
  {
  }

  lemma NoMoreAttributes(bytes: Bytes, pos: nat)
    ensures AttributeAt(bytes, pos).Eof? ==> AttributesFrom(bytes, pos) == Unended
    ensures AttributeAt(bytes, pos).NoAttr? ==> AttributesFrom(bytes, pos) == Ended([], AttributeAt(bytes, pos).next)
  {
    hide AttributeAt;
  }

  // ----- the main scan -----

  /** The `>` that ends a comment: the first with two dashes before it. */
  function CommentEnd(bytes: Bytes, p: nat): (r: Option<nat>)
    ensures r.Some? ==> p <= r.value < |bytes|
    decreases |bytes| - p
  {
    if p >= |bytes| then None
    else if bytes[p] == GREATER && p >= 2 && bytes[p - 1] == DASH && bytes[p - 2] == DASH then Some(p)
    else CommentEnd(bytes, p + 1)
  }

  function NextGreater(bytes: Bytes, p: nat): (r: Option<nat>)
    ensures r.Some? ==> p <= r.value < |bytes|
    decreases |bytes| - p
  {
    if p >= |bytes| then None else if bytes[p] == GREATER then Some(p) else NextGreater(bytes, p + 1)
  }

  predicate EitherCase(bytes: Bytes, pos: nat, lower: Byte) {
    pos < |bytes| && Lower(bytes[pos]) == lower
  }

  /** `<meta` in any case, then whitespace or a slash; the position after that. */
  function MetaStart(bytes: Bytes, pos: nat): Option<nat> {
    if && ByteIs(bytes, pos, LESS) && EitherCase(bytes, pos + 1, 0x6D) && EitherCase(bytes, pos + 2, 0x65)
       && EitherCase(bytes, pos + 3, 0x74) && EitherCase(bytes, pos + 4, 0x61)
       && pos + 5 < |bytes| && IsWsOrSlash(bytes[pos + 5])
    then Some(pos + 6)
    else None
  }

  /** `<`, perhaps `/`, then a letter: where that letter is. */
  function TagNameStart(bytes: Bytes, pos: nat): (r: Option<nat>)
    ensures r.Some? ==> pos < r.value < |bytes|
  {
    var p := if ByteIs(bytes, pos + 1, SLASH) then pos + 2 else pos + 1;
    if ByteIs(bytes, pos, LESS) && p < |bytes| && IsLetter(bytes[p]) then Some(p) else None
  }

  predicate InTagName(b: Byte) {
    !IsWs(b) && b != GREATER
  }

  /** The `>` that ends a tag with its attributes skipped. */
  function TagEnd(bytes: Bytes, nameStart: nat): (r: Option<nat>)
    ensures r.Some? ==> nameStart <= r.value < |bytes|
  {
    var p := SkipWhile(bytes, nameStart, InTagName);
    if p >= |bytes| then None
    else
      match AttributesFrom(bytes, p)
      case Unended => None
      case Ended(_, next) => Some(next)
  }

  predicate BangSlashOrQuestion(bytes: Bytes, pos: nat) {
    && ByteIs(bytes, pos, LESS)
    && (ByteIs(bytes, pos + 1, BANG) || ByteIs(bytes, pos + 1, SLASH) || ByteIs(bytes, pos + 1, QUESTION))
  }

  function Passing(end: Option<nat>): Outcome {
    match end
    case None => Abort
    case Some(p) => Continue(p)
  }

  /** One step of the main loop; it goes on one byte after the position it continues at. */
  function Step(bytes: Bytes, pos: nat, labels: Labels): (r: Outcome)
    requires pos < |bytes|
    ensures r.Continue? ==> pos <= r.next < |bytes|
  {
    if StartsWithAt(bytes, pos, COMMENT_OPEN) then Passing(CommentEnd(bytes, pos + 4))
    else if MetaStart(bytes, pos).Some? then MetaOutcome(bytes, MetaStart(bytes, pos).value, labels)
    else if TagNameStart(bytes, pos).Some? then Passing(TagEnd(bytes, TagNameStart(bytes, pos).value))
    else if BangSlashOrQuestion(bytes, pos) then Passing(NextGreater(bytes, pos + 2))
    else Continue(pos)
  }

  function Scan(bytes: Bytes, pos: nat, labels: Labels): Option<Encoding>
    decreases |bytes| - pos
  {
    if pos >= |bytes| then None
    else
      match Step(bytes, pos, labels)
      case Decided(e) => Some(e)
      case Abort => None
      case Continue(next) => Scan(bytes, next + 1, labels)
  }

  function Window(bytes: Bytes): Bytes {
    if |bytes| <= PRESCAN_LIMIT then bytes else bytes[..PRESCAN_LIMIT]
  }

  function Prescanned(bytes: Bytes, labels: Labels): Option<Encoding> {
    Scan(Window(bytes), 0, labels)
  }

  method SkipComment(bytes: Bytes, pos: nat) returns (r: Option<nat>)
    ensures r == CommentEnd(bytes, pos + 4)
  {
    var p := pos + 4;
    while p < |bytes|
      invariant CommentEnd(bytes, p) == CommentEnd(bytes, pos + 4)
      decreases |bytes| - p
    {
      if bytes[p] == GREATER && p >= 2 && bytes[p - 1] == DASH && bytes[p - 2] == DASH {
        return Some(p);
      }
      p := p + 1;
    }
    r := None;
  }

  method SkipToGreater(bytes: Bytes, pos: nat) returns (r: Option<nat>)
    ensures r == NextGreater(bytes, pos + 2)
  {
    var p := pos + 2;
    while p < |bytes|
      invariant NextGreater(bytes, p) == NextGreater(bytes, pos + 2)
      decreases |bytes| - p
    {
      if bytes[p] == GREATER {
        return Some(p);
      }
      p := p + 1;
    }
    r := None;
  }

  method SkipGenericTag(bytes: Bytes, nameStart: nat) returns (r: Option<nat>)
    ensures r == TagEnd(bytes, nameStart)
  {
    hide InTagName, AttributeAt;
    var p := Skip(bytes, nameStart, InTagName);
    if p >= |bytes| {
      return None;
    }
    ghost var start := p;
    ghost var attrs: seq<Attribute> := [];
    while true
      invariant Joined(attrs, AttributesFrom(bytes, p)) == AttributesFrom(bytes, start)
      decreases |bytes| - p
    {
      var sniffed := GetAttribute(bytes, p);
      AttributeProgress(bytes, p);
      NoMoreAttributes(bytes, p);
      match sniffed {
        case Eof => return None;
        case NoAttr(next) => return Some(next);
        case Found(attr, next) =>
          JoinedStep(attrs, bytes, p);
          attrs := attrs + [attr];
          p := next;
      }
    }
  }

  method PrescanMetaCharset(bytes: Bytes, labels: Labels) returns (r: Option<Encoding>)
    ensures r == Prescanned(bytes, labels)
  {
    hide StartsWithAt, MetaStart, TagNameStart, BangSlashOrQuestion, MetaOutcome, CommentEnd, TagEnd, NextGreater;
    var window := Window(bytes);
    var pos: nat := 0;
    while pos < |window|
      invariant Scan(window, pos, labels) == Prescanned(bytes, labels)
    {
      var end: Option<nat>;
      if StartsWithAt(window, pos, COMMENT_OPEN) {
        end := SkipComment(window, pos);
      } else if MetaStart(window, pos).Some? {
        var outcome := ScanMetaAttributes(window, MetaStart(window, pos).value, labels);
        match outcome {
          case Decided(e) => return Some(e);
          case Continue(next) => end := Some(next);
          case Abort => end := None;
        }
      } else if TagNameStart(window, pos).Some? {
        end := SkipGenericTag(window, TagNameStart(window, pos).value);
      } else if BangSlashOrQuestion(window, pos) {
        end := SkipToGreater(window, pos);
      } else {
        end := Some(pos);
      }
      if end.None? {
        return None;
      }
      pos := end.value + 1;
    }
    r := None;
  }
}
