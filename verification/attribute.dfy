/** The `.gitattributes` line parser: splitting a file into lines, recognising comments,
    macro definitions and patterns, and tokenising the attribute list of each line. */
module Attributes {
  import opened Results
  import opened Bytes

  const DASH: bv8 := 0x2D       // '-'
  const BANG: bv8 := 0x21       // '!'
  const EQUALS: bv8 := 0x3D     // '='
  const HASH: bv8 := 0x23       // '#'
  const QUOTE: bv8 := 0x22      // '"'
  const LF: bv8 := 0x0A
  const CR: bv8 := 0x0D

  /** `[attr]`, the prefix of a macro definition. */
  const ATTR_PREFIX: Bytes := [0x5B, 0x61, 0x74, 0x74, 0x72, 0x5D]

  /** The separators of a line: space, tab and carriage return. */
  predicate IsBlank(b: bv8) { b == 0x20 || b == 0x09 || b == CR }
  predicate IsNotBlank(b: bv8) { !IsBlank(b) }

  /** ASCII white space, which separates the attributes of a line. */
  predicate IsWhitespace(b: bv8) { 0x09 <= b <= 0x0D || b == 0x20 }
  predicate IsNotWhitespace(b: bv8) { !IsWhitespace(b) }

  predicate IsEquals(b: bv8) { b == EQUALS }
  predicate IsLineFeed(b: bv8) { b == LF }

  /** The bytes an attribute name may use: `-`, `.`, `_`, ASCII letters and digits. */
  predicate IsNameByte(b: bv8) {
    b == DASH || b == 0x2E || b == 0x5F || 0x41 <= b <= 0x5A || 0x61 <= b <= 0x7A || 0x30 <= b <= 0x39
  }
  predicate IsNotNameByte(b: bv8) { !IsNameByte(b) }

  predicate StartsWith(s: Bytes, prefix: Bytes) {
    |prefix| <= |s| && s[..|prefix|] == prefix
  }

  /** The state an attribute is given on a line. */
  datatype State = Set | Unset | Unspecified | Value(value: Bytes)

  /** Flags the ignore-pattern parser attaches to a pattern. */
  datatype ModeFlag = NoSubDir | EndsWith | MustBeDir | Negative
  type Mode = set<ModeFlag>

  /** What the first field of a line defines. */
  datatype Kind = Pattern(text: Bytes, mode: Mode) | Macro(name: Bytes)

  /** The error of the ANSI-C unquoter, carried through unchanged. */
  datatype UndoError = UndoError(detail: Bytes)

  datatype Error =
    | PatternNegation(lineNumber: nat, line: Bytes)
    | AttributeName(lineNumber: nat, attribute: Bytes)
    | Unquote(cause: UndoError)

  /** The ANSI-C unquoter: the unquoted text and the number of input bytes it consumed,
      which never exceeds the input. */
  type Unquoter = undo: Bytes -> Result<(Bytes, nat), UndoError>
    | forall s :: undo(s).Ok? ==> undo(s).value.1 <= |s|
    witness (s: Bytes) => Err(UndoError([]))

  /** The ignore-pattern parser: a pattern and its flags, or nothing for a line without one. */
  type PatternParser = Bytes -> Option<(Bytes, Mode)>

  /** Only a pattern can be negative; a macro never is. */
  predicate IsNegativePattern(kind: Kind)
    ensures IsNegativePattern(kind) ==> kind.Pattern? && Negative in kind.mode
  {
    match kind
    case Pattern(_, mode) => Negative in mode
    case Macro(_) => false
  }

  /** `attr_valid`: no leading `-`, and only name bytes. */
  predicate AttrValid(attr: Bytes): (ok: bool)
    ensures ok <==> (|attr| == 0 || attr[0] != DASH) && forall i :: 0 <= i < |attr| ==> IsNameByte(attr[i])
  {
    !(|attr| > 0 && attr[0] == DASH) && FindFirst(attr, IsNotNameByte).None?
  }

  /** Accepts `attr` exactly when it does not start with `-` and uses only name bytes;
      otherwise reports it with the line number. */
  function CheckAttr(attr: Bytes, lineNumber: nat): (r: Result<Bytes, Error>)
    ensures r.Ok? <==> (|attr| == 0 || attr[0] != DASH) && forall i :: 0 <= i < |attr| ==> IsNameByte(attr[i])
    ensures r.Ok? ==> r.value == attr
    ensures r.Err? ==> r.error == AttributeName(lineNumber, attr)
  {
    if AttrValid(attr) then Ok(attr) else Err(AttributeName(lineNumber, attr))
  }

  /** `splitn(2, '=')`: the text before the first `=`, and the rest after it if there is one. */
  function SplitAtEquals(attr: Bytes): (r: (Bytes, Option<Bytes>))
    ensures EQUALS !in r.0
    ensures r.1.None? ==> r.0 == attr
    ensures r.1.Some? ==> attr == r.0 + [EQUALS] + r.1.value
  {
    match FindFirst(attr, IsEquals)
    case Some(i) =>
      assert attr == attr[..i] + [EQUALS] + attr[i + 1..];
      (attr[..i], Some(attr[i + 1..]))
    case None => (attr, None)
  }

  /** Classifies one attribute token: `-name` unsets, `!name` leaves unspecified,
      `name=value` assigns, a bare `name` sets. */
  function ParseAttr(attr: Bytes, lineNo: nat): (r: Result<(Bytes, State), Error>)
    ensures r.Ok? ==> AttrValid(r.value.0) && EQUALS !in r.value.0
    ensures r.Err? ==> r.error.AttributeName? && r.error.lineNumber == lineNo
    ensures r.Ok? && |attr| > 0 && attr[0] == DASH ==> r.value.1 == Unset
    ensures r.Ok? && |attr| > 0 && attr[0] == BANG ==> r.value.1 == Unspecified
    ensures r.Ok? && r.value.1 == Set ==> r.value.0 == attr
  {
    var (name, possiblyValue) := SplitAtEquals(attr);
    assert |name| > 0 ==> attr[0] == name[0] && EQUALS !in name[1..];
    var (name, state) :=
      if |name| > 0 && name[0] == DASH then (name[1..], Unset)
      else if |name| > 0 && name[0] == BANG then (name[1..], Unspecified)
      else (name, match possiblyValue case Some(v) => Value(v) case None => Set);
    match CheckAttr(name, lineNo)
    case Ok(n) => Ok((n, state))
    case Err(e) => Err(e)
  }

  /** The token text `=value`, or nothing. */
  function Assignment(value: Option<Bytes>): Bytes {
    match value
    case Some(v) => [EQUALS] + v
    case None => []
  }

  lemma SplitAtEqualsOfAssignment(name: Bytes, value: Option<Bytes>)
    requires EQUALS !in name
    ensures SplitAtEquals(name + Assignment(value)) == (name, value)
  {
    FindFirstAfterPrefix(name, Assignment(value), IsEquals);
    if value.None? {
      assert name + Assignment(value) == name;
    } else {
      assert (name + Assignment(value))[..|name|] == name;
      assert (name + Assignment(value))[|name| + 1..] == value.value;
    }
  }

  /** A token without a leading `-` or `!` parses back to its name and to `Value` or `Set`. */
  lemma ParseAttrAssigned(name: Bytes, value: Option<Bytes>, lineNo: nat)
    requires EQUALS !in name
    requires |name| == 0 || (name[0] != DASH && name[0] != BANG)
    ensures ParseAttr(name + Assignment(value), lineNo) ==
            if AttrValid(name) then Ok((name, match value case Some(v) => Value(v) case None => Set))
            else Err(AttributeName(lineNo, name))
  {
    SplitAtEqualsOfAssignment(name, value);
  }

  /** `-name` and `!name` parse to `Unset` and `Unspecified`; any `=value` is discarded. */
  lemma ParseAttrNegated(marker: bv8, name: Bytes, value: Option<Bytes>, lineNo: nat)
    requires marker == DASH || marker == BANG
    requires EQUALS !in name
    ensures ParseAttr([marker] + name + Assignment(value), lineNo) ==
            if AttrValid(name) then Ok((name, if marker == DASH then Unset else Unspecified))
            else Err(AttributeName(lineNo, name))
  {
    SplitAtEqualsOfAssignment([marker] + name, value);
    assert [marker] + name + Assignment(value) == ([marker] + name) + Assignment(value);
    assert ([marker] + name)[1..] == name;
  }

  /** `--x`: stripping one dash leaves a name that still starts with one, so it is rejected. */
  lemma ParseAttrDoubleDashRejected(rest: Bytes, lineNo: nat)
    ensures ParseAttr([DASH, DASH] + rest, lineNo).Err?
  {
    FindFirstAfterPrefix([DASH, DASH], rest, IsEquals);
  }

  /** The attribute text of one line still to be tokenised, and that line's number. */
  datatype Iter = Iter(attrs: Bytes, lineNo: nat)

  /** The next whitespace-separated field and the text after it. */
  function NextField(s: Bytes): (r: Option<(Bytes, Bytes)>)
    ensures r.None? <==> forall k :: 0 <= k < |s| ==> IsWhitespace(s[k])
    ensures r.Some? ==> |r.value.0| > 0 && |r.value.1| < |s|
    ensures r.Some? ==> forall k :: 0 <= k < |r.value.0| ==> !IsWhitespace(r.value.0[k])
    ensures r.Some? ==> |r.value.1| == 0 || IsWhitespace(r.value.1[0])
  {
    match FindFirst(s, IsNotWhitespace)
    case None => None
    case Some(start) =>
      var t := s[start..];
      match FindFirst(t, IsWhitespace)
      case Some(end) => Some((t[..end], t[end..]))
      case None => Some((t, []))
  }

  /** The field is preceded only by white space and followed directly by the rest. */
  lemma NextFieldDecomposes(s: Bytes)
    requires NextField(s).Some?
    ensures var (field, rest) := NextField(s).value;
            var skip := |s| - |field| - |rest|;
            0 <= skip && s == s[..skip] + field + rest
            && forall k :: 0 <= k < skip ==> IsWhitespace(s[k])
  {
    var start := FindFirst(s, IsNotWhitespace).value;
    var t := s[start..];
    assert s == s[..start] + t;
    match FindFirst(t, IsWhitespace)
    case Some(end) =>
      assert t == t[..end] + t[end..];
    case None =>
      assert t == t + [];
  }

  /** The whitespace-separated fields of `s`, in order (`fields()`). */
  function Fields(s: Bytes): (fields: seq<Bytes>)
    ensures forall i :: 0 <= i < |fields| ==> |fields[i]| > 0
    ensures forall i, k :: 0 <= i < |fields| && 0 <= k < |fields[i]| ==> !IsWhitespace(fields[i][k])
    decreases |s|
  {
    match NextField(s)
    case None => []
    case Some((field, rest)) =>
      var later := Fields(rest);
      assert forall i :: 1 <= i <= |later| ==> ([field] + later)[i] == later[i - 1];
      [field] + later
  }

  /** A maximal run of non-white bytes after white space is the next field. */
  lemma NextFieldOfRun(ws: Bytes, field: Bytes, rest: Bytes)
    requires forall k :: 0 <= k < |ws| ==> IsWhitespace(ws[k])
    requires |field| > 0 && forall k :: 0 <= k < |field| ==> !IsWhitespace(field[k])
    requires |rest| == 0 || IsWhitespace(rest[0])
    ensures NextField(ws + field + rest) == Some((field, rest))
  {
    var s := ws + field + rest;
    assert s == ws + (field + rest);
    FindFirstAfterPrefix(ws, field + rest, IsNotWhitespace);
    assert (field + rest)[0] == field[0];
    assert s[|ws|..] == field + rest;
    FindFirstAfterPrefix(field, rest, IsWhitespace);
    if |rest| == 0 {
      assert field + rest == field;
    } else {
      assert (field + rest)[..|field|] == field && (field + rest)[|field|..] == rest;
    }
  }

  /** White space separates fields: a maximal non-white run is one field, and the fields
      after it are those of the rest. */
  lemma FieldsOfRun(ws: Bytes, field: Bytes, rest: Bytes)
    requires forall k :: 0 <= k < |ws| ==> IsWhitespace(ws[k])
    requires |field| > 0 && forall k :: 0 <= k < |field| ==> !IsWhitespace(field[k])
    requires |rest| == 0 || IsWhitespace(rest[0])
    ensures Fields(ws + field + rest) == [field] + Fields(rest)
  {
    NextFieldOfRun(ws, field, rest);
  }

  /** `s` with its white space removed. */
  function RemoveWhitespace(s: Bytes): Bytes
    decreases |s|
  {
    if |s| == 0 then [] else Kept(s[0]) + RemoveWhitespace(s[1..])
  }

  function Kept(b: bv8): Bytes {
    if IsWhitespace(b) then [] else [b]
  }

  lemma {:induction false} RemoveWhitespaceAppend(a: Bytes, b: Bytes)
    ensures RemoveWhitespace(a + b) == RemoveWhitespace(a) + RemoveWhitespace(b)
    decreases |a|
  {
    if |a| == 0 {
      assert a + b == b;
    } else {
      var ab := a + b;
      assert ab[0] == a[0];
      assert ab[1..] == a[1..] + b;
      calc {
        RemoveWhitespace(ab);
        Kept(a[0]) + RemoveWhitespace(a[1..] + b);
        { RemoveWhitespaceAppend(a[1..], b); }
        Kept(a[0]) + (RemoveWhitespace(a[1..]) + RemoveWhitespace(b));
        (Kept(a[0]) + RemoveWhitespace(a[1..])) + RemoveWhitespace(b);
      }
    }
  }

  lemma {:induction false} RemoveWhitespaceAll(s: Bytes)
    requires forall k :: 0 <= k < |s| ==> IsWhitespace(s[k])
    ensures RemoveWhitespace(s) == []
    decreases |s|
  {
    if |s| > 0 {
      RemoveWhitespaceAll(s[1..]);
    }
  }

  lemma {:induction false} RemoveWhitespaceNone(s: Bytes)
    requires forall k :: 0 <= k < |s| ==> !IsWhitespace(s[k])
    ensures RemoveWhitespace(s) == s
    decreases |s|
  {
    if |s| > 0 {
      RemoveWhitespaceNone(s[1..]);
      assert s == [s[0]] + s[1..];
    }
  }

  /** The fields together hold every non-white byte of `s`, in order, and nothing else. */
  lemma {:induction false} FieldsKeepAllNonWhitespace(s: Bytes)
    ensures Flatten(Fields(s)) == RemoveWhitespace(s)
    decreases |s|
  {
    var next := NextField(s);
    if next.None? {
      RemoveWhitespaceAll(s);
    } else {
      var field, rest := next.value.0, next.value.1;
      NextFieldDecomposes(s);
      var blanks := s[..|s| - |field| - |rest|];
      assert s == blanks + field + rest;
      assert Fields(s) == [field] + Fields(rest);
      FlattenCons(field, Fields(rest));
      FieldsKeepAllNonWhitespace(rest);
      assert Flatten(Fields(s)) == field + RemoveWhitespace(rest);
      RemoveWhitespaceAll(blanks);
      RemoveWhitespaceNone(field);
      RemoveWhitespaceAppend(blanks, field);
      assert RemoveWhitespace(blanks + field) == field;
      RemoveWhitespaceAppend(blanks + field, rest);
    }
  }

  /** One step of the attribute iterator: the next field's parse result, or `None` when
      the fields are exhausted. */
  function IterNext(it: Iter): (r: (Option<Result<(Bytes, State), Error>>, Iter))
    ensures r.0.Some? ==> |r.1.attrs| < |it.attrs|
    ensures r.1.lineNo == it.lineNo
  {
    match NextField(it.attrs)
    case None => (None, Iter([], it.lineNo))
    case Some((field, rest)) =>
      if |field| == 0 then (None, Iter(rest, it.lineNo))
      else (Some(ParseAttr(field, it.lineNo)), Iter(rest, it.lineNo))
  }

  /** Everything the attribute iterator yields until it first returns `None`. */
  function IterCollect(it: Iter): seq<Result<(Bytes, State), Error>>
    decreases |it.attrs|
  {
    match IterNext(it)
    case (None, _) => []
    case (Some(item), next) => [item] + IterCollect(next)
  }

  /** One step of the iterator and of the field split, side by side. */
  lemma IterCollectStep(it: Iter)
    requires NextField(it.attrs).Some?
    ensures var (field, rest) := NextField(it.attrs).value;
            IterCollect(it) == [ParseAttr(field, it.lineNo)] + IterCollect(Iter(rest, it.lineNo))
            && Fields(it.attrs) == [field] + Fields(rest)
  {
    var (field, rest) := NextField(it.attrs).value;
    assert IterNext(it) == (Some(ParseAttr(field, it.lineNo)), Iter(rest, it.lineNo));
  }

  /** The parse results of `fields`, one per field, in order. */
  function ParseEach(fields: seq<Bytes>, lineNo: nat): (r: seq<Result<(Bytes, State), Error>>)
    ensures |r| == |fields|
    ensures forall i :: 0 <= i < |fields| ==> r[i] == ParseAttr(fields[i], lineNo)
  {
    if |fields| == 0 then [] else [ParseAttr(fields[0], lineNo)] + ParseEach(fields[1..], lineNo)
  }

  /** The iterator yields one parse result per field, in order, all for the line it was made for. */
  lemma {:induction false} IterYieldsEachField(it: Iter)
    ensures IterCollect(it) == ParseEach(Fields(it.attrs), it.lineNo)
    decreases |it.attrs|
  {
    if NextField(it.attrs).Some? {
      var (field, rest) := NextField(it.attrs).value;
      IterYieldsEachField(Iter(rest, it.lineNo));
      IterCollectStep(it);
      assert ([field] + Fields(rest))[1..] == Fields(rest);
    }
  }

  /** Drops one carriage return that preceded the line feed. */
  function TrimCr(line: Bytes): Bytes {
    if |line| > 0 && line[|line| - 1] == CR then line[..|line| - 1] else line
  }

  /** The lines of `s`: split at each line feed, a `\r\n` ending counts as one terminator,
      and a final line without terminator is kept. */
  function SplitLines(s: Bytes): (lines: seq<Bytes>)
    ensures forall i :: 0 <= i < |lines| ==> LF !in lines[i]
    ensures |s| == 0 <==> |lines| == 0
    decreases |s|
  {
    if |s| == 0 then []
    else match FindFirst(s, IsLineFeed)
      case None => [s]
      case Some(i) => [TrimCr(s[..i])] + SplitLines(s[i + 1..])
  }

  /** Each line followed by a line feed. */
  function JoinLines(lines: seq<Bytes>): Bytes {
    if |lines| == 0 then [] else lines[0] + [LF] + JoinLines(lines[1..])
  }

  /** Without carriage returns, splitting into lines loses nothing but a missing final line feed. */
  lemma {:induction false} SplitLinesRoundTrip(s: Bytes)
    requires CR !in s
    ensures JoinLines(SplitLines(s)) == if |s| == 0 || s[|s| - 1] == LF then s else s + [LF]
    decreases |s|
  {
    if |s| > 0 {
      match FindFirst(s, IsLineFeed)
      case None =>
        assert JoinLines([s]) == s + [LF] + JoinLines([]);
      case Some(i) =>
        var tail := s[i + 1..];
        SplitLinesFirst(s, i);
        SplitLinesRoundTrip(tail);
        if |tail| > 0 {
          assert tail[|tail| - 1] == s[|s| - 1];
        }
    }
  }

  /** The first line, without carriage returns, is everything before the first line feed. */
  lemma SplitLinesFirst(s: Bytes, i: nat)
    requires CR !in s
    requires FindFirst(s, IsLineFeed) == Some(i)
    ensures s == s[..i] + [LF] + s[i + 1..]
    ensures JoinLines(SplitLines(s)) == s[..i] + [LF] + JoinLines(SplitLines(s[i + 1..]))
  {
    assert s[..i] == TrimCr(s[..i]) by {
      if i > 0 { assert s[..i][i - 1] == s[i - 1]; }
    }
    assert s[i] == LF;
    assert s == s[..i] + [LF] + s[i + 1..];
    var lines, later := SplitLines(s), SplitLines(s[i + 1..]);
    assert lines == [s[..i]] + later;
    assert lines[0] == s[..i] && lines[1..] == later;
    assert JoinLines(lines) == lines[0] + [LF] + JoinLines(lines[1..]);
  }

  /** A `\r\n` terminator ends the line before it and is dropped whole. */
  lemma SplitLinesCrLf(a: Bytes, b: Bytes)
    requires LF !in a
    ensures SplitLines(a + [CR, LF] + b) == [a] + SplitLines(b)
  {
    var s := a + [CR, LF] + b;
    var head := a + [CR];
    assert s == head + ([LF] + b);
    FindFirstAfterPrefix(head, [LF] + b, IsLineFeed);
    assert FindFirst([LF] + b, IsLineFeed) == Some(0);
    assert FindFirst(s, IsLineFeed) == Some(|head|);
    assert s[..|head|] == head && s[|head| + 1..] == b;
    assert TrimCr(head) == a;
  }

  /** A bare `\n` terminator ends the line before it; a `\r` that does not end that
      line is kept. */
  lemma SplitLinesLf(a: Bytes, b: Bytes)
    requires LF !in a
    requires |a| == 0 || a[|a| - 1] != CR
    ensures SplitLines(a + [LF] + b) == [a] + SplitLines(b)
  {
    var s := a + [LF] + b;
    assert s == a + ([LF] + b);
    FindFirstAfterPrefix(a, [LF] + b, IsLineFeed);
    assert FindFirst([LF] + b, IsLineFeed) == Some(0);
    assert FindFirst(s, IsLineFeed) == Some(|a|);
    assert s[..|a|] == a && s[|a| + 1..] == b;
    assert TrimCr(a) == a;
  }

  /** A final line without terminator is kept as it is, a trailing `\r` included. */
  lemma SplitLinesUnterminated(a: Bytes)
    requires LF !in a && |a| > 0
    ensures SplitLines(a) == [a]
  {
    assert FindFirst(a, IsLineFeed).None? by {
      forall k | 0 <= k < |a| ensures !IsLineFeed(a[k]) {
        assert a[k] in a;
      }
    }
  }

  /** Skips leading blanks; a line made only of blanks is returned unchanged. */
  function SkipBlanks(line: Bytes): (r: Bytes)
    ensures |r| <= |line| && r == line[|line| - |r|..]
    ensures forall k :: 0 <= k < |line| - |r| ==> IsBlank(line[k])
    ensures (exists k :: 0 <= k < |line| && !IsBlank(line[k])) ==> |r| > 0 && !IsBlank(r[0])
    ensures (forall k :: 0 <= k < |line| ==> IsBlank(line[k])) ==> r == line
  {
    match FindFirst(line, IsNotBlank)
    case Some(p) => line[p..]
    case None => line
  }

  /** The kind defined by the (unquoted) first field, plus the iterator over the rest. */
  function ParseKind(text: Bytes, attrs: Bytes, lineNo: nat, parsePattern: PatternParser)
    : (r: Option<Result<(Kind, Iter), Error>>)
    ensures r.Some? && r.value.Ok? ==> r.value.value.1 == Iter(attrs, lineNo)
    ensures r.Some? && r.value.Ok? && r.value.value.0.Macro? ==>
              text == ATTR_PREFIX + r.value.value.0.name && AttrValid(r.value.value.0.name)
    ensures r.Some? && r.value.Err? ==>
              StartsWith(text, ATTR_PREFIX) && r.value.error == AttributeName(lineNo, text[|ATTR_PREFIX|..])
    ensures StartsWith(text, ATTR_PREFIX) ==> r.Some? && (r.value.Ok? <==> AttrValid(text[|ATTR_PREFIX|..]))
    ensures StartsWith(text, ATTR_PREFIX) && r.Some? && r.value.Ok? ==> r.value.value.0 == Macro(text[|ATTR_PREFIX|..])
    ensures r.None? <==> !StartsWith(text, ATTR_PREFIX) && parsePattern(text).None?
    ensures !StartsWith(text, ATTR_PREFIX) && r.Some? ==>
              r.value.Ok? && r.value.value.0 == Pattern(parsePattern(text).value.0, parsePattern(text).value.1)
  {
    if StartsWith(text, ATTR_PREFIX) then
      match CheckAttr(text[|ATTR_PREFIX|..], lineNo)
      case Ok(name) =>
        assert text == text[..|ATTR_PREFIX|] + text[|ATTR_PREFIX|..];
        Some(Ok((Macro(name), Iter(attrs, lineNo))))
      case Err(e) => Some(Err(e))
    else
      match parsePattern(text)
      case None => None
      case Some((pattern, mode)) => Some(Ok((Pattern(pattern, mode), Iter(attrs, lineNo))))
  }

  /** Parses one non-comment line: nothing for an empty line, otherwise the kind its first
      field defines and an iterator over its attributes. */
  function ParseLine(line: Bytes, lineNo: nat, undo: Unquoter, parsePattern: PatternParser)
    : (r: Option<Result<(Kind, Iter), Error>>)
    ensures |line| == 0 ==> r.None?
    ensures r.Some? && r.value.Ok? ==> r.value.value.1.lineNo == lineNo
    ensures r.Some? && r.value.Err? && r.value.error.AttributeName? ==> r.value.error.lineNumber == lineNo
  {
    if |line| == 0 then None
    else if line[0] == QUOTE then
      match undo(line)
      case Err(e) => Some(Err(Unquote(e)))
      case Ok((unquoted, consumed)) => ParseKind(unquoted, line[consumed..], lineNo, parsePattern)
    else
      match FindFirst(line, IsBlank)
      case Some(pos) => ParseKind(line[..pos], line[pos..], lineNo, parsePattern)
      case None => ParseKind(line, [], lineNo, parsePattern)
  }

  /** A quoted line the unquoter rejects is an `Unquote` error. */
  lemma QuotedLineFails(line: Bytes, lineNo: nat, undo: Unquoter, parsePattern: PatternParser)
    requires |line| > 0 && line[0] == QUOTE && undo(line).Err?
    ensures ParseLine(line, lineNo, undo, parsePattern) == Some(Err(Unquote(undo(line).error)))
  {
  }

  /** A quoted line whose unquoted first field is `[attr]name` defines the macro `name`
      when the name is valid, and is an error otherwise; the attributes are the bytes after
      the quoted field. */
  lemma QuotedMacroLine(line: Bytes, name: Bytes, consumed: nat, lineNo: nat,
                        undo: Unquoter, parsePattern: PatternParser)
    requires |line| > 0 && line[0] == QUOTE && undo(line) == Ok((ATTR_PREFIX + name, consumed))
    ensures consumed <= |line|
    ensures ParseLine(line, lineNo, undo, parsePattern) ==
            if AttrValid(name) then Some(Ok((Macro(name), Iter(line[consumed..], lineNo))))
            else Some(Err(AttributeName(lineNo, name)))
  {
    var text := ATTR_PREFIX + name;
    assert StartsWith(text, ATTR_PREFIX) && text[|ATTR_PREFIX|..] == name;
  }

  /** A quoted line whose unquoted first field is not a macro goes to the ignore-pattern
      parser; the attributes are the bytes after the quoted field. */
  lemma QuotedPatternLine(line: Bytes, text: Bytes, consumed: nat, lineNo: nat,
                          undo: Unquoter, parsePattern: PatternParser)
    requires |line| > 0 && line[0] == QUOTE && undo(line) == Ok((text, consumed))
    requires !StartsWith(text, ATTR_PREFIX)
    ensures consumed <= |line|
    ensures ParseLine(line, lineNo, undo, parsePattern) ==
            match parsePattern(text)
            case None => None
            case Some((pattern, mode)) => Some(Ok((Pattern(pattern, mode), Iter(line[consumed..], lineNo))))
  {
  }

  /** An unquoted `[attr]name` line defines the macro `name` when the name is valid, and is
      an error otherwise; the text from the first blank on holds the attributes. */
  lemma ParseLineMacro(name: Bytes, attrs: Bytes, lineNo: nat, undo: Unquoter, parsePattern: PatternParser)
    requires forall k :: 0 <= k < |name| ==> !IsBlank(name[k])
    requires |attrs| == 0 || IsBlank(attrs[0])
    ensures ParseLine(ATTR_PREFIX + name + attrs, lineNo, undo, parsePattern) ==
            if AttrValid(name) then Some(Ok((Macro(name), Iter(attrs, lineNo))))
            else Some(Err(AttributeName(lineNo, name)))
  {
    var text := ATTR_PREFIX + name;
    var line := text + attrs;
    assert forall k :: 0 <= k < |text| ==> !IsBlank(text[k]) by {
      forall k | 0 <= k < |text| ensures !IsBlank(text[k]) {
        if k >= |ATTR_PREFIX| { assert text[k] == name[k - |ATTR_PREFIX|]; }
      }
    }
    FindFirstAfterPrefix(text, attrs, IsBlank);
    assert line[0] == ATTR_PREFIX[0];
    if |attrs| == 0 {
      assert line == text;
    } else {
      assert line[..|text|] == text && line[|text|..] == attrs;
    }
    assert text[..|ATTR_PREFIX|] == ATTR_PREFIX && text[|ATTR_PREFIX|..] == name;
  }

  /** An unquoted line that is not a macro splits at its first blank into the pattern, handed
      to the ignore-pattern parser, and the attribute text; without a blank the attributes are empty. */
  lemma ParseLinePattern(text: Bytes, attrs: Bytes, lineNo: nat, undo: Unquoter, parsePattern: PatternParser)
    requires |text| > 0 && text[0] != QUOTE && !StartsWith(text, ATTR_PREFIX)
    requires forall k :: 0 <= k < |text| ==> !IsBlank(text[k])
    requires |attrs| == 0 || IsBlank(attrs[0])
    ensures ParseLine(text + attrs, lineNo, undo, parsePattern) ==
            match parsePattern(text)
            case None => None
            case Some((pattern, mode)) => Some(Ok((Pattern(pattern, mode), Iter(attrs, lineNo))))
  {
    var line := text + attrs;
    FindFirstAfterPrefix(text, attrs, IsBlank);
    assert line[0] == text[0];
    if |attrs| == 0 {
      assert line == text;
    } else {
      assert line[..|text|] == text && line[|text|..] == attrs;
    }
  }

  /** What `Lines` yields for one line with the given number: nothing for comments, empty
      lines and lines without a pattern; otherwise the parsed line, with negative patterns
      turned into an error. */
  function LineItem(raw: Bytes, lineNo: nat, undo: Unquoter, parsePattern: PatternParser)
    : (r: Option<Result<(Kind, Iter, nat), Error>>)
    ensures |raw| == 0 ==> r.None?
    ensures r.None? <==> var line := SkipBlanks(raw);
                         (|line| > 0 && line[0] == HASH) || ParseLine(line, lineNo, undo, parsePattern).None?
    ensures r.Some? && r.value.Ok? ==>
              var (kind, attrs, no) := r.value.value;
              no == lineNo && attrs.lineNo == lineNo && !IsNegativePattern(kind)
    ensures r.Some? && r.value.Err? && !r.value.error.Unquote? ==> r.value.error.lineNumber == lineNo
  {
    var line := SkipBlanks(raw);
    if |line| > 0 && line[0] == HASH then None
    else match ParseLine(line, lineNo, undo, parsePattern)
      case None => None
      case Some(Ok((kind, attrs))) =>
        Some(if IsNegativePattern(kind) then Err(PatternNegation(lineNo, line)) else Ok((kind, attrs, lineNo)))
      case Some(Err(e)) => Some(Err(e))
  }

  /** A line that is not a comment yields what `parse_line` makes of its blank-stripped
      text: nothing, the same error, the parsed kind and iterator with the line number
      appended, or `PatternNegation` for a negative pattern. */
  lemma LineItemOfParsed(raw: Bytes, lineNo: nat, undo: Unquoter, parsePattern: PatternParser)
    requires var line := SkipBlanks(raw); !(|line| > 0 && line[0] == HASH)
    ensures var line := SkipBlanks(raw);
            LineItem(raw, lineNo, undo, parsePattern) ==
            match ParseLine(line, lineNo, undo, parsePattern)
            case None => None
            case Some(Err(e)) => Some(Err(e))
            case Some(Ok((kind, attrs))) =>
              if IsNegativePattern(kind) then Some(Err(PatternNegation(lineNo, line)))
              else Some(Ok((kind, attrs, lineNo)))
  {
  }

  /** A line whose first non-blank byte is `#` yields nothing. */
  lemma CommentLineSkipped(blanks: Bytes, comment: Bytes, lineNo: nat, undo: Unquoter, parsePattern: PatternParser)
    requires forall k :: 0 <= k < |blanks| ==> IsBlank(blanks[k])
    ensures LineItem(blanks + [HASH] + comment, lineNo, undo, parsePattern).None?
  {
    var raw := blanks + [HASH] + comment;
    assert raw == blanks + ([HASH] + comment);
    FindFirstAfterPrefix(blanks, [HASH] + comment, IsNotBlank);
    assert raw[|blanks|..] == [HASH] + comment;
  }

  /** A line that parses to a negative pattern yields `PatternNegation` with its number. */
  lemma NegativePatternRejected(raw: Bytes, lineNo: nat, undo: Unquoter, parsePattern: PatternParser)
    requires var line := SkipBlanks(raw);
             !(|line| > 0 && line[0] == HASH) &&
             var parsed := ParseLine(line, lineNo, undo, parsePattern);
             parsed.Some? && parsed.value.Ok? && IsNegativePattern(parsed.value.value.0)
    ensures LineItem(raw, lineNo, undo, parsePattern) == Some(Err(PatternNegation(lineNo, SkipBlanks(raw))))
  {
  }

  /** Leading blanks before a byte that is not blank are skipped. */
  lemma SkipBlanksPrefix(blanks: Bytes, line: Bytes)
    requires forall k :: 0 <= k < |blanks| ==> IsBlank(blanks[k])
    requires |line| > 0 && !IsBlank(line[0])
    ensures SkipBlanks(blanks + line) == line
  {
    FindFirstAfterPrefix(blanks, line, IsNotBlank);
    assert (blanks + line)[|blanks|..] == line;
  }

  /** An unquoted pattern line, after any blanks, yields the parsed pattern with its line
      number and an iterator over its attributes; a negative pattern is an error instead,
      and a line the ignore-pattern parser rejects yields nothing. */
  lemma PatternLineYields(blanks: Bytes, text: Bytes, attrs: Bytes, lineNo: nat,
                          undo: Unquoter, parsePattern: PatternParser)
    requires forall k :: 0 <= k < |blanks| ==> IsBlank(blanks[k])
    requires |text| > 0 && text[0] != QUOTE && text[0] != HASH && !StartsWith(text, ATTR_PREFIX)
    requires forall k :: 0 <= k < |text| ==> !IsBlank(text[k])
    requires |attrs| == 0 || IsBlank(attrs[0])
    ensures LineItem(blanks + text + attrs, lineNo, undo, parsePattern) ==
            match parsePattern(text)
            case None => None
            case Some((pattern, mode)) =>
              if Negative in mode then Some(Err(PatternNegation(lineNo, text + attrs)))
              else Some(Ok((Pattern(pattern, mode), Iter(attrs, lineNo), lineNo)))
  {
    var line := text + attrs;
    assert blanks + text + attrs == blanks + line;
    assert line[0] == text[0];
    SkipBlanksPrefix(blanks, line);
    ParseLinePattern(text, attrs, lineNo, undo, parsePattern);
    var parsed := ParseLine(line, lineNo, undo, parsePattern);
    match parsePattern(text)
    case None =>
      assert parsed.None?;
    case Some((pattern, mode)) =>
      assert parsed == Some(Ok((Pattern(pattern, mode), Iter(attrs, lineNo))));
      assert IsNegativePattern(Pattern(pattern, mode)) == (Negative in mode);
  }

  /** An `[attr]name` line, after any blanks, yields the macro with its line number and an
      iterator over its attributes when the name is valid, and the name error otherwise. */
  lemma MacroLineYields(blanks: Bytes, name: Bytes, attrs: Bytes, lineNo: nat,
                        undo: Unquoter, parsePattern: PatternParser)
    requires forall k :: 0 <= k < |blanks| ==> IsBlank(blanks[k])
    requires forall k :: 0 <= k < |name| ==> !IsBlank(name[k])
    requires |attrs| == 0 || IsBlank(attrs[0])
    ensures LineItem(blanks + ATTR_PREFIX + name + attrs, lineNo, undo, parsePattern) ==
            if AttrValid(name) then Some(Ok((Macro(name), Iter(attrs, lineNo), lineNo)))
            else Some(Err(AttributeName(lineNo, name)))
  {
    var line := ATTR_PREFIX + name + attrs;
    assert blanks + ATTR_PREFIX + name + attrs == blanks + line;
    assert line[0] == ATTR_PREFIX[0];
    SkipBlanksPrefix(blanks, line);
    ParseLineMacro(name, attrs, lineNo, undo, parsePattern);
    assert !IsNegativePattern(Macro(name));
    var parsed := ParseLine(line, lineNo, undo, parsePattern);
    if AttrValid(name) {
      assert parsed == Some(Ok((Macro(name), Iter(attrs, lineNo))));
    } else {
      assert parsed == Some(Err(AttributeName(lineNo, name)));
    }
  }

  /** The lines of the buffer still to be read, and the number of the last line read. */
  datatype Lines = Lines(pending: seq<Bytes>, lineNo: nat)

  /** `Lines::new`: skips a byte-order mark of `bomLength` bytes and starts before line 1. */
  function LinesNew(buf: Bytes, bomLength: nat): (l: Lines)
    requires bomLength <= |buf|
    ensures l.lineNo == 0
    ensures forall i :: 0 <= i < |l.pending| ==> LF !in l.pending[i]
    ensures |l.pending| == 0 <==> bomLength == |buf|
  {
    Lines(SplitLines(buf[bomLength..]), 0)
  }

  /** Without carriage returns, the pending lines rejoined are the buffer after the
      byte-order mark, plus a final line feed if it lacked one. */
  lemma LinesNewRoundTrip(buf: Bytes, bomLength: nat)
    requires bomLength <= |buf| && CR !in buf[bomLength..]
    ensures var s := buf[bomLength..];
            JoinLines(LinesNew(buf, bomLength).pending) == if |s| == 0 || s[|s| - 1] == LF then s else s + [LF]
  {
    SplitLinesRoundTrip(buf[bomLength..]);
  }

  /** The line loop of the iterator, for any per-line outcome `item`: counts and consumes
      lines up to and including the first one that has an outcome. */
  function NextItem<T>(l: Lines, item: (Bytes, nat) -> Option<T>): (r: (Option<T>, Lines))
    ensures var consumed := |l.pending| - |r.1.pending|;
            0 <= consumed && r.1.pending == l.pending[consumed..] && r.1.lineNo == l.lineNo + consumed
    ensures r.0.None? ==> r.1.pending == []
    ensures r.0.Some? ==> |r.1.pending| < |l.pending|
    ensures r.0.Some? ==> r.0 == item(l.pending[|l.pending| - |r.1.pending| - 1], r.1.lineNo)
    decreases |l.pending|
  {
    if |l.pending| == 0 then (None, l)
    else
      var lineNo := l.lineNo + 1;
      var rest := Lines(l.pending[1..], lineNo);
      match item(l.pending[0], lineNo)
      case None => NextItem(rest, item)
      case Some(x) => (Some(x), rest)
  }

  /** Every line the loop consumes before the one it yields has no outcome: the `i`-th
      consumed line, numbered `lineNo + i + 1`, is one of them. */
  lemma {:induction false} NextItemSkipsOnlyLinesWithoutOutcome<T>(l: Lines, item: (Bytes, nat) -> Option<T>, i: nat)
    requires var r := NextItem(l, item);
             i < |l.pending| - |r.1.pending| - (if r.0.Some? then 1 else 0)
    ensures item(l.pending[i], l.lineNo + i + 1).None?
    decreases |l.pending|
  {
    var rest := Lines(l.pending[1..], l.lineNo + 1);
    var first := item(l.pending[0], l.lineNo + 1);
    if first.None? && i > 0 {
      var r := NextItem(rest, item);
      assert NextItem(l, item) == r;
      assert i - 1 < |rest.pending| - |r.1.pending| - (if r.0.Some? then 1 else 0);
      NextItemSkipsOnlyLinesWithoutOutcome(rest, item, i - 1);
      assert rest.pending[i - 1] == l.pending[i];
    } else if first.Some? {
      assert false;
    }
  }

  /** Everything the line loop yields until it returns `None`. */
  function CollectItems<T>(l: Lines, item: (Bytes, nat) -> Option<T>): seq<T>
    decreases |l.pending|
  {
    match NextItem(l, item)
    case (None, _) => []
    case (Some(x), next) => [x] + CollectItems(next, item)
  }

  /** The outcomes of the lines `lines`, numbered from `lineNo + 1`, one line at a time. */
  function PerLineItems<T>(lines: seq<Bytes>, lineNo: nat, item: (Bytes, nat) -> Option<T>): seq<T> {
    if |lines| == 0 then []
    else
      (match item(lines[0], lineNo + 1) case Some(x) => [x] case None => [])
      + PerLineItems(lines[1..], lineNo + 1, item)
  }

  /** The line loop yields exactly the per-line outcomes in order: its counter makes the
      n-th line line number n. */
  lemma {:induction false} CollectItemsPerLine<T>(lines: seq<Bytes>, lineNo: nat, item: (Bytes, nat) -> Option<T>)
    ensures CollectItems(Lines(lines, lineNo), item) == PerLineItems(lines, lineNo, item)
    decreases |lines|
  {
    if |lines| > 0 {
      var rest := Lines(lines[1..], lineNo + 1);
      CollectItemsPerLine(lines[1..], lineNo + 1, item);
      match item(lines[0], lineNo + 1)
      case None =>
        assert NextItem(Lines(lines, lineNo), item) == NextItem(rest, item);
      case Some(x) =>
    }
  }

  /** Every per-line outcome comes from one line, numbered by its position. */
  lemma {:induction false} PerLineItemsOrigin<T>(lines: seq<Bytes>, lineNo: nat, item: (Bytes, nat) -> Option<T>)
    ensures forall x :: x in PerLineItems(lines, lineNo, item) ==>
              exists i :: 0 <= i < |lines| && item(lines[i], lineNo + i + 1) == Some(x)
    decreases |lines|
  {
    if |lines| > 0 {
      PerLineItemsOrigin(lines[1..], lineNo + 1, item);
      forall x | x in PerLineItems(lines, lineNo, item)
        ensures exists i :: 0 <= i < |lines| && item(lines[i], lineNo + i + 1) == Some(x)
      {
        if x in PerLineItems(lines[1..], lineNo + 1, item) {
          var j :| 0 <= j < |lines| - 1 && item(lines[1..][j], lineNo + 1 + j + 1) == Some(x);
          assert lines[1..][j] == lines[j + 1];
        } else {
          assert item(lines[0], lineNo + 1) == Some(x);
        }
      }
    }
  }

  /** The per-line outcome of `.gitattributes` lines. */
  function LineItemOf(undo: Unquoter, parsePattern: PatternParser): (Bytes, nat) -> Option<Result<(Kind, Iter, nat), Error>> {
    (raw: Bytes, no: nat) => LineItem(raw, no, undo, parsePattern)
  }

  /** `Lines::next`: an `Ok` item carries the number of the line it came from, which is
      the count of lines consumed so far, and is never a negative pattern. */
  function LinesNext(l: Lines, undo: Unquoter, parsePattern: PatternParser)
    : (r: (Option<Result<(Kind, Iter, nat), Error>>, Lines))
    ensures r.0.Some? ==> |r.1.pending| < |l.pending| && r.1.lineNo == l.lineNo + (|l.pending| - |r.1.pending|)
    ensures r.0.Some? && r.0.value.Ok? ==>
              r.0.value.value.2 == r.1.lineNo && r.0.value.value.1.lineNo == r.1.lineNo
              && !IsNegativePattern(r.0.value.value.0)
    ensures r.0.Some? && r.0.value.Err? && r.0.value.error.PatternNegation? ==>
              r.0.value.error.lineNumber == r.1.lineNo
    ensures r.0.None? ==> r.1.pending == []
  {
    NextItem(l, LineItemOf(undo, parsePattern))
  }

  /** Everything the `.gitattributes` line iterator yields. */
  function LinesCollect(l: Lines, undo: Unquoter, parsePattern: PatternParser): seq<Result<(Kind, Iter, nat), Error>> {
    CollectItems(l, LineItemOf(undo, parsePattern))
  }

  /** Every successful item carries the 1-based number of the line it came from and is
      exactly what that line parses to. */
  lemma OkItemsCarryTheirLineNumber(lines: seq<Bytes>, undo: Unquoter, parsePattern: PatternParser)
    ensures forall x :: x in LinesCollect(Lines(lines, 0), undo, parsePattern) && x.Ok? ==>
              exists i :: 0 <= i < |lines| && x.value.2 == i + 1 && LineItem(lines[i], i + 1, undo, parsePattern) == Some(x)
  {
    var item := LineItemOf(undo, parsePattern);
    CollectItemsPerLine(lines, 0, item);
    PerLineItemsOrigin(lines, 0, item);
    var perLine := PerLineItems(lines, 0, item);
    assert LinesCollect(Lines(lines, 0), undo, parsePattern) == perLine;
    forall x: Result<(Kind, Iter, nat), Error> | x in perLine && x.Ok?
      ensures exists i :: 0 <= i < |lines| && x.value.2 == i + 1 && LineItem(lines[i], i + 1, undo, parsePattern) == Some(x)
    {
      var i :| 0 <= i < |lines| && item(lines[i], 0 + i + 1) == Some(x);
      var r := LineItem(lines[i], i + 1, undo, parsePattern);
      assert r == Some(x);
      assert r.value.value.2 == i + 1;
    }
  }
}
