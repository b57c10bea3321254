/** Header maps and their JSON forms.

    A header value is its bytes; JSON strings are their UTF-8 bytes. `HeaderMap` is used through its
    contract: keys keep the order of their first insertion, `insert` replaces all values of a key and
    `append` adds one after them. */
module Headers {
  import opened Common

  type Text = Bytes

  const COMMA: Byte := 44
  const SPACE: Byte := 32
  const TAB: Byte := 9

  /** What `HeaderValue` accepts: no control byte but TAB, and not DEL. */
  predicate ValueByte(b: Byte) { (b >= 32 && b != 127) || b == TAB }

  predicate IsValue(s: Text) { forall i :: 0 <= i < |s| ==> ValueByte(s[i]) }

  /** `to_str` succeeds: visible ASCII and TAB only. */
  predicate Readable(s: Text) { forall i :: 0 <= i < |s| ==> 32 <= s[i] < 127 || s[i] == TAB }

  datatype Entry = Entry(name: Text, values: seq<Text>)

  /** The entries in key order. */
  type HeaderMap = seq<Entry>

  ghost predicate WellFormedEntry(e: Entry) {
    ParseName(e.name) == Some(e.name) && e.values != [] && AllValues(e.values)
  }

  predicate AllValues(vs: seq<Text>) { forall i :: 0 <= i < |vs| ==> IsValue(vs[i]) }

  ghost predicate WellFormed(m: HeaderMap) {
    && (forall i :: 0 <= i < |m| ==> WellFormedEntry(m[i]))
    && (forall i, j :: 0 <= i < j < |m| ==> m[i].name != m[j].name)
  }

  function Insert(m: HeaderMap, name: Text, value: Text): HeaderMap {
    if m == [] then [Entry(name, [value])]
    else if m[0].name == name then [Entry(name, [value])] + m[1..]
    else [m[0]] + Insert(m[1..], name, value)
  }

  function Append(m: HeaderMap, name: Text, value: Text): HeaderMap {
    if m == [] then [Entry(name, [value])]
    else if m[0].name == name then [Entry(name, m[0].values + [value])] + m[1..]
    else [m[0]] + Append(m[1..], name, value)
  }

  predicate NameByte(b: Byte) {
    48 <= b <= 57 || 65 <= b <= 90 || 97 <= b <= 122
    || b in {33, 35, 36, 37, 38, 39, 42, 43, 45, 46, 94, 95, 96, 124, 126}
  }

  function Lower(b: Byte): Byte { if 65 <= b <= 90 then b + 32 else b }

  /** `HeaderName::from_bytes`: a non-empty token, in lower case. */
  function ParseName(s: Text): Option<Text> {
    if s != [] && forall i :: 0 <= i < |s| ==> NameByte(s[i])
    then Some(seq(|s|, i requires 0 <= i < |s| => Lower(s[i])))
    else None
  }

  /* ---------- the JSON side ---------- */

  datatype OneOrMore = One(text: Text) | Strings(texts: seq<Text>) | Blobs(blobs: seq<Text>)

  datatype Field = Field(name: Text, value: OneOrMore)

  datatype Error = InvalidName(name: Text) | InvalidValue(value: Text) | NotUtf8(value: Text)

  /* ---------- splitting a comma-separated value ---------- */

  function HasComma(s: Text): bool { COMMA in s }

  /** `str::split(',')` */
  function SplitCommas(s: Text): (r: seq<Text>)
    ensures r != []
  {
    if s == [] then [[]]
    else
      var rest := SplitCommas(s[1..]);
      if s[0] == COMMA then [[]] + rest
      else [[s[0]] + rest[0]] + rest[1..]
  }

  predicate Blank(b: Byte) { 9 <= b <= 13 || b == SPACE }

  function TrimStart(s: Text): Text {
    if s != [] && Blank(s[0]) then TrimStart(s[1..]) else s
  }

  function TrimEnd(s: Text): Text {
    if s != [] && Blank(s[|s| - 1]) then TrimEnd(s[..|s| - 1]) else s
  }

  /** `str::trim` on ASCII text. */
  function Trim(s: Text): Text { TrimEnd(TrimStart(s)) }

  /** The trimmed, non-empty parts. */
  function Parts(raw: seq<Text>): seq<Text> {
    if raw == [] then []
    else (if Trim(raw[0]) == [] then [] else [Trim(raw[0])]) + Parts(raw[1..])
  }

  /** `split_and_append_header` as a function: it stops at the first part that is no header value. */
  function AppendParts(m: HeaderMap, name: Text, raw: seq<Text>): Result<HeaderMap, Error>
    decreases raw
  {
    if raw == [] then Ok(m)
    else
      var part := Trim(raw[0]);
      if part == [] then AppendParts(m, name, raw[1..])
      else if IsValue(part) then AppendParts(Append(m, name, part), name, raw[1..])
      else Err(InvalidValue(part))
  }

  method SplitAndAppend(m: HeaderMap, name: Text, value: Text) returns (r: Result<HeaderMap, Error>)
    ensures r == AppendParts(m, name, SplitCommas(value))
  {
    var map' := m;
    var raw := SplitCommas(value);
    var i := 0;
    while i < |raw|
      invariant 0 <= i <= |raw|
      invariant AppendParts(m, name, raw) == AppendParts(map', name, raw[i..])
    {
      var part := Trim(raw[i]);
      assert raw[i..][1..] == raw[i + 1..];
      if part != [] {
        if !IsValue(part) {
          return Err(InvalidValue(part));
        }
        map' := Append(map', name, part);
      }
      i := i + 1;
    }
    return Ok(map');
  }

  /* ---------- visit_map ---------- */

  /** One text in array position: appended, or split when splitting is on and it has a comma. */
  function VisitText(split: bool, m: HeaderMap, name: Text, text: Text): Result<HeaderMap, Error> {
    if split && HasComma(text) then AppendParts(m, name, SplitCommas(text))
    else if IsValue(text) then Ok(Append(m, name, text))
    else Err(InvalidValue(text))
  }

  function VisitTexts(split: bool, m: HeaderMap, name: Text, texts: seq<Text>): Result<HeaderMap, Error>
    decreases texts
  {
    if texts == [] then Ok(m)
    else
      match VisitText(split, m, name, texts[0])
      case Err(e) => Err(e)
      case Ok(n) => VisitTexts(split, n, name, texts[1..])
  }

  /** One field. A lone string replaces what the key had, unless it is split. */
  function VisitField(split: bool, m: HeaderMap, f: Field): Result<HeaderMap, Error> {
    match ParseName(f.name)
    case None => Err(InvalidName(f.name))
    case Some(name) =>
      match f.value
      case One(text) =>
        if split && HasComma(text) then AppendParts(m, name, SplitCommas(text))
        else if IsValue(text) then Ok(Insert(m, name, text))
        else Err(InvalidValue(text))
      case Strings(texts) => VisitTexts(split, m, name, texts)
      case Blobs(blobs) => VisitTexts(false, m, name, blobs)
  }

  function VisitFields(split: bool, m: HeaderMap, fields: seq<Field>): Result<HeaderMap, Error>
    decreases fields
  {
    if fields == [] then Ok(m)
    else
      match VisitField(split, m, fields[0])
      case Err(e) => Err(e)
      case Ok(n) => VisitFields(split, n, fields[1..])
  }

  function Deserialize(split: bool, fields: seq<Field>): Result<HeaderMap, Error> {
    VisitFields(split, [], fields)
  }

  /** One turn of the loop of `visit_map`. */
  method VisitEntry(split: bool, m: HeaderMap, f: Field) returns (r: Result<HeaderMap, Error>)
    ensures r == VisitField(split, m, f)
  {
    var parsed := ParseName(f.name);
    if parsed.None? { return Err(InvalidName(f.name)); }
    var name, map' := parsed.value, m;
    match f.value {
      case One(text) =>
        if split && HasComma(text) {
          r := SplitAndAppend(map', name, text);
          return;
        }
        if !IsValue(text) { return Err(InvalidValue(text)); }
        map' := Insert(map', name, text);
      case Strings(texts) =>
        var j := 0;
        while j < |texts|
          invariant 0 <= j <= |texts|
          invariant VisitTexts(split, m, name, texts) == VisitTexts(split, map', name, texts[j..])
        {
          assert texts[j..][1..] == texts[j + 1..];
          if split && HasComma(texts[j]) {
            var added := SplitAndAppend(map', name, texts[j]);
            if added.Err? { return added; }
            map' := added.value;
          } else {
            if !IsValue(texts[j]) { return Err(InvalidValue(texts[j])); }
            map' := Append(map', name, texts[j]);
          }
          j := j + 1;
        }
      case Blobs(blobs) =>
        var j := 0;
        while j < |blobs|
          invariant 0 <= j <= |blobs|
          invariant VisitTexts(false, m, name, blobs) == VisitTexts(false, map', name, blobs[j..])
        {
          assert blobs[j..][1..] == blobs[j + 1..];
          if !IsValue(blobs[j]) { return Err(InvalidValue(blobs[j])); }
          map' := Append(map', name, blobs[j]);
          j := j + 1;
        }
    }
    return Ok(map');
  }

  /** `visit_map`. It succeeds exactly when all names and all pieces of texts are acceptable, and leaves
      under each key what its fields add up to; a field that is the only one of its name leaves its lone
      string whole or, when splitting is on and it has a comma, its trimmed non-empty parts, its strings
      as they are or each split likewise, or its byte strings. */
  method VisitMap(split: bool, fields: seq<Field>) returns (r: Result<HeaderMap, Error>)
    ensures r == Deserialize(split, fields)
    ensures r.Ok? <==> forall i :: 0 <= i < |fields| ==> Acceptable(split, fields[i])
    ensures r.Ok? ==> forall key :: Lookup(r.value, key) == Left(split, fields, key)
    ensures r.Ok? ==> forall i :: 0 <= i < |fields| && OnlyOfItsName(fields, i) ==>
      Lookup(r.value, ParseName(fields[i].name).value) ==
        if fields[i].value.Strings? then
          (if split then AllPieces(true, fields[i].value.texts) else fields[i].value.texts)
        else if fields[i].value.Blobs? then fields[i].value.blobs
        else if split && 44 in fields[i].value.text then Parts(SplitCommas(fields[i].value.text))
        else [fields[i].value.text]
  {
    var map' := [];
    var i := 0;
    while i < |fields|
      invariant 0 <= i <= |fields|
      invariant VisitFields(split, [], fields) == VisitFields(split, map', fields[i..])
    {
      assert fields[i..][1..] == fields[i + 1..];
      var visited := VisitEntry(split, map', fields[i]);
      if visited.Err? {
        ReadingIs(split, fields);
        return visited;
      }
      map' := visited.value;
      i := i + 1;
    }
    ReadingIs(split, fields);
    return Ok(map');
  }

  /* ---------- the serializers ---------- */

  function ReadableOnes(values: seq<Text>): seq<Text> {
    if values == [] then []
    else (if Readable(values[0]) then [values[0]] else []) + ReadableOnes(values[1..])
  }

  /** `values.join(", ")` */
  function Join(values: seq<Text>): Text {
    if values == [] then []
    else if |values| == 1 then values[0]
    else values[0] + [COMMA, SPACE] + Join(values[1..])
  }

  function SerializeComma(m: HeaderMap): seq<Field> {
    if m == [] then []
    else
      var values := ReadableOnes(m[0].values);
      (if values == [] then [] else [Field(m[0].name, One(Join(values)))]) + SerializeComma(m[1..])
  }

  /** `serialize_multi_value_headers`; `utf8` decides whether bytes are UTF-8. */
  function SerializeMulti(utf8: Text -> bool, m: HeaderMap): Result<seq<Field>, Error> {
    if m == [] then Ok([])
    else
      match FirstBad(utf8, m[0].values)
      case Some(bad) => Err(NotUtf8(bad))
      case None =>
        match SerializeMulti(utf8, m[1..])
        case Err(e) => Err(e)
        case Ok(rest) => Ok([Field(m[0].name, Strings(m[0].values))] + rest)
  }

  function FirstBad(utf8: Text -> bool, values: seq<Text>): Option<Text> {
    if values == [] then None
    else if !utf8(values[0]) then Some(values[0])
    else FirstBad(utf8, values[1..])
  }

  method SerializeCommaSeparated(m: HeaderMap) returns (fields: seq<Field>)
    ensures fields == SerializeComma(m)
  {
    fields := [];
    var i := 0;
    while i < |m|
      invariant 0 <= i <= |m|
      invariant SerializeComma(m) == fields + SerializeComma(m[i..])
    {
      ghost var rest := SerializeComma(m[i + 1..]);
      assert m[i..][1..] == m[i + 1..];
      var values := ReadableOnes(m[i].values);
      if values != [] {
        var field := Field(m[i].name, One(Join(values)));
        assert SerializeComma(m[i..]) == [field] + rest;
        assert fields + ([field] + rest) == fields + [field] + rest;
        fields := fields + [field];
      } else {
        assert SerializeComma(m[i..]) == rest;
      }
      i := i + 1;
    }
  }

  /* ---------- serialize, then deserialize with splitting ---------- */

  /** What a key's values become. */
  function Normalize(values: seq<Text>): seq<Text> {
    var rs := ReadableOnes(values);
    if rs == [] then []
    else if HasComma(Join(rs)) then Parts(SplitCommas(Join(rs)))
    else [Join(rs)]
  }

  /** What a map becomes: keys left with no value disappear. */
  function NormalMap(m: HeaderMap): HeaderMap {
    if m == [] then []
    else
      var values := Normalize(m[0].values);
      (if values == [] then [] else [Entry(m[0].name, values)]) + NormalMap(m[1..])
  }

  /** A value that survives inside a list. */
  predicate Plain(s: Text) { Readable(s) && !HasComma(s) && Trim(s) == s && s != [] }

  predicate AllPlain(vs: seq<Text>) { forall i :: 0 <= i < |vs| ==> Plain(vs[i]) }

  /** The key's values come back as they are: one readable comma-free value, or several that are
      readable, comma-free, trimmed and non-empty. */
  predicate Stable(vs: seq<Text>) {
    if |vs| == 1 then Readable(vs[0]) && !HasComma(vs[0]) else vs != [] && AllPlain(vs)
  }

  predicate StableMap(m: HeaderMap) { forall i :: 0 <= i < |m| ==> Stable(m[i].values) }

  lemma {:induction false} TrimStartFacts(s: Text)
    ensures TrimStart(s) == [] || !Blank(TrimStart(s)[0])
    ensures forall b :: b in TrimStart(s) ==> b in s
  {
    if s != [] && Blank(s[0]) {
      TrimStartFacts(s[1..]);
    }
  }

  lemma {:induction false} TrimEndFacts(s: Text)
    ensures TrimEnd(s) == [] || !Blank(TrimEnd(s)[|TrimEnd(s)| - 1])
    ensures TrimEnd(s) <= s
  {
    if s != [] && Blank(s[|s| - 1]) {
      TrimEndFacts(s[..|s| - 1]);
    }
  }

  lemma TrimIsStretch(s: Text)
    ensures forall b :: b in Trim(s) ==> b in s
    ensures Trim(s) == [] || (!Blank(Trim(s)[0]) && !Blank(Trim(s)[|Trim(s)| - 1]))
  {
    TrimStartFacts(s);
    TrimEndFacts(TrimStart(s));
    assert Trim(s) != [] ==> Trim(s)[0] == TrimStart(s)[0];
  }

  /** Trimming keeps a stretch of the text, and trimming again changes nothing. */
  lemma TrimFacts(s: Text)
    ensures Trim(Trim(s)) == Trim(s)
    ensures forall b :: b in Trim(s) ==> b in s
    ensures Trim([SPACE] + s) == Trim(s)
  {
    TrimIsStretch(s);
    assert ([SPACE] + s)[1..] == s;
    assert TrimStart([SPACE] + s) == TrimStart(s);
  }

  lemma {:induction false} SplitFacts(s: Text)
    ensures forall i :: 0 <= i < |SplitCommas(s)| ==> !HasComma(SplitCommas(s)[i])
    ensures Readable(s) ==> forall i :: 0 <= i < |SplitCommas(s)| ==> Readable(SplitCommas(s)[i])
  {
    if s != [] {
      SplitFacts(s[1..]);
    }
  }

  lemma {:induction false} PartsFacts(raw: seq<Text>)
    requires forall i :: 0 <= i < |raw| ==> Readable(raw[i]) && !HasComma(raw[i])
    ensures AllPlain(Parts(raw))
  {
    if raw != [] {
      PartsFacts(raw[1..]);
      TrimFacts(raw[0]);
      var t := Trim(raw[0]);
      forall i | 0 <= i < |t| ensures 32 <= t[i] < 127 || t[i] == TAB {
        assert t[i] in raw[0];
      }
    }
  }

  lemma {:induction false} ReadableFacts(vs: seq<Text>)
    ensures forall i :: 0 <= i < |ReadableOnes(vs)| ==> Readable(ReadableOnes(vs)[i])
    ensures (forall i :: 0 <= i < |vs| ==> Readable(vs[i])) ==> ReadableOnes(vs) == vs
  {
    if vs != [] {
      ReadableFacts(vs[1..]);
    }
  }

  lemma {:induction false} JoinReadable(vs: seq<Text>)
    requires forall i :: 0 <= i < |vs| ==> Readable(vs[i])
    ensures Readable(Join(vs))
    ensures |vs| >= 2 ==> HasComma(Join(vs))
  {
    if |vs| >= 2 {
      JoinReadable(vs[1..]);
      assert Join(vs)[|vs[0]|] == COMMA;
    }
  }

  /** Splitting undoes joining, up to the space that joining put in. */
  lemma {:induction false} SplitAfterComma(a: Text, b: Text)
    requires !HasComma(a)
    ensures SplitCommas(a + [COMMA] + b) == [a] + SplitCommas(b)
  {
    var s := a + [COMMA] + b;
    if a == [] {
      assert s[1..] == b;
    } else {
      assert s[0] == a[0] && a[0] in a && s[1..] == a[1..] + [COMMA] + b;
      assert !HasComma(a[1..]);
      SplitAfterComma(a[1..], b);
      assert [a[0]] + a[1..] == a;
    }
  }

  lemma {:induction false} SplitAlone(a: Text)
    requires !HasComma(a)
    ensures SplitCommas(a) == [a]
  {
    if a != [] {
      assert a[0] in a && !HasComma(a[1..]);
      SplitAlone(a[1..]);
      assert [a[0]] + a[1..] == a;
    }
  }

  lemma LeadingSpaceIsTrimmed(b: Text)
    ensures Parts(SplitCommas([SPACE] + b)) == Parts(SplitCommas(b))
  {
    var rest := SplitCommas(b);
    assert ([SPACE] + b)[1..] == b;
    TrimFacts(rest[0]);
  }

  lemma {:induction false} JoinSplits(vs: seq<Text>)
    requires AllPlain(vs) && vs != []
    ensures Parts(SplitCommas(Join(vs))) == vs
  {
    var v := vs[0];
    assert Plain(v);
    if |vs| == 1 {
      SplitAlone(v);
      assert vs == [v];
    } else {
      var rest := Join(vs[1..]);
      assert Join(vs) == v + [COMMA] + ([SPACE] + rest);
      SplitAfterComma(v, [SPACE] + rest);
      LeadingSpaceIsTrimmed(rest);
      JoinSplits(vs[1..]);
      assert ([v] + SplitCommas([SPACE] + rest))[1..] == SplitCommas([SPACE] + rest);
    }
  }

  lemma NormalizeFacts(vs: seq<Text>)
    ensures Normalize(vs) == [] || Stable(Normalize(vs))
    ensures AllValues(Normalize(vs))
    ensures |Normalize(vs)| >= 2 ==> AllPlain(Normalize(vs))
  {
    var rs := ReadableOnes(vs);
    ReadableFacts(vs);
    if rs != [] {
      JoinReadable(rs);
      SplitFacts(Join(rs));
      PartsFacts(SplitCommas(Join(rs)));
      assert forall i :: 0 <= i < |Normalize(vs)| ==> Readable(Normalize(vs)[i]);
    }
  }

  /** Exactly the stable value lists come back unchanged, in their order. */
  lemma StableIff(vs: seq<Text>)
    requires vs != []
    ensures Normalize(vs) == vs <==> Stable(vs)
  {
    NormalizeFacts(vs);
    if Stable(vs) {
      ReadableFacts(vs);
      JoinReadable(vs);
      if |vs| >= 2 { JoinSplits(vs); }
    }
  }

  /* ---------- the composite on whole maps ---------- */

  ghost predicate Fresh(m: HeaderMap, name: Text) { forall i :: 0 <= i < |m| ==> m[i].name != name }

  lemma {:induction false} FreshInsert(m: HeaderMap, name: Text, v: Text)
    requires Fresh(m, name)
    ensures Append(m, name, v) == Insert(m, name, v) == m + [Entry(name, [v])]
  {
    if m != [] {
      FreshInsert(m[1..], name, v);
      assert m == [m[0]] + m[1..];
    }
  }

  lemma {:induction false} AppendLast(m: HeaderMap, name: Text, vs: seq<Text>, v: Text)
    requires Fresh(m, name)
    ensures Append(m + [Entry(name, vs)], name, v) == m + [Entry(name, vs + [v])]
  {
    var n := m + [Entry(name, vs)];
    if m != [] {
      assert n[0] == m[0] && n[1..] == m[1..] + [Entry(name, vs)];
      AppendLast(m[1..], name, vs, v);
      assert m == [m[0]] + m[1..];
    } else {
      assert n == [Entry(name, vs)] && n[1..] == [];
    }
  }

  /** The map after `vs` has been appended under a fresh name. */
  function With(m: HeaderMap, name: Text, vs: seq<Text>): HeaderMap {
    if vs == [] then m else m + [Entry(name, vs)]
  }

  lemma AppendToWith(m: HeaderMap, name: Text, vs: seq<Text>, v: Text)
    requires Fresh(m, name)
    ensures Append(With(m, name, vs), name, v) == With(m, name, vs + [v])
  {
    if vs == [] {
      FreshInsert(m, name, v);
      assert vs + [v] == [v];
    } else {
      AppendLast(m, name, vs, v);
    }
  }

  function AppendAll(m: HeaderMap, name: Text, values: seq<Text>): HeaderMap
    decreases values
  {
    if values == [] then m else AppendAll(Append(m, name, values[0]), name, values[1..])
  }

  lemma {:induction false} AppendAllToFresh(m: HeaderMap, name: Text, vs: seq<Text>, more: seq<Text>)
    requires Fresh(m, name)
    ensures AppendAll(With(m, name, vs), name, more) == With(m, name, vs + more)
    decreases more
  {
    if more == [] {
      assert vs + more == vs;
    } else {
      AppendToWith(m, name, vs, more[0]);
      AppendAllToFresh(m, name, vs + [more[0]], more[1..]);
      assert vs + [more[0]] + more[1..] == vs + more;
    }
  }

  /** Splitting appends the parts. */
  lemma {:induction false} AppendPartsAre(m: HeaderMap, name: Text, raw: seq<Text>)
    requires AllValues(Parts(raw))
    ensures AppendParts(m, name, raw) == Ok(AppendAll(m, name, Parts(raw)))
    decreases raw
  {
    if raw != [] {
      var part, rest := Trim(raw[0]), Parts(raw[1..]);
      if part == [] {
        assert Parts(raw) == rest;
        AppendPartsAre(m, name, raw[1..]);
      } else {
        assert Parts(raw)[0] == part && Parts(raw)[1..] == rest;
        AppendPartsAre(Append(m, name, part), name, raw[1..]);
      }
    }
  }

  lemma {:induction false} TextsAre(m: HeaderMap, name: Text, texts: seq<Text>)
    requires AllValues(texts)
    ensures VisitTexts(false, m, name, texts) == Ok(AppendAll(m, name, texts))
    decreases texts
  {
    if texts != [] {
      TextsAre(Append(m, name, texts[0]), name, texts[1..]);
    }
  }

  ghost predicate Disjoint(a: HeaderMap, b: HeaderMap) {
    forall i, j :: 0 <= i < |a| && 0 <= j < |b| ==> a[i].name != b[j].name
  }

  lemma TailIsWellFormed(m: HeaderMap)
    requires WellFormed(m) && m != []
    ensures WellFormedEntry(m[0]) && WellFormed(m[1..])
    ensures m == [m[0]] + m[1..]
  {
    forall i | 0 <= i < |m[1..]| ensures WellFormedEntry(m[1..][i]) { assert m[1..][i] == m[i + 1]; }
  }

  lemma StillDisjoint(done: HeaderMap, m: HeaderMap, vs: seq<Text>)
    requires WellFormed(m) && Disjoint(done, m) && m != []
    ensures Fresh(done, m[0].name) && Disjoint(With(done, m[0].name, vs), m[1..])
  {
    var next := With(done, m[0].name, vs);
    forall i, j | 0 <= i < |next| && 0 <= j < |m[1..]| ensures next[i].name != m[1..][j].name {
      assert m[1..][j] == m[j + 1];
    }
  }

  /** Reading one key's field back. */
  lemma FieldIsNormalized(done: HeaderMap, e: Entry)
    requires Fresh(done, e.name) && WellFormedEntry(e) && ReadableOnes(e.values) != []
    ensures VisitField(true, done, Field(e.name, One(Join(ReadableOnes(e.values)))))
            == Ok(With(done, e.name, Normalize(e.values)))
  {
    var text := Join(ReadableOnes(e.values));
    NormalizeFacts(e.values);
    if HasComma(text) {
      AppendPartsAre(done, e.name, SplitCommas(text));
      AppendAllToFresh(done, e.name, [], Parts(SplitCommas(text)));
      assert [] + Parts(SplitCommas(text)) == Normalize(e.values);
    } else {
      FreshInsert(done, e.name, text);
      assert IsValue(Normalize(e.values)[0]);
    }
  }

  lemma KeyIsNormalized(done: HeaderMap, m: HeaderMap)
    requires WellFormed(m) && Disjoint(done, m) && m != []
    ensures VisitFields(true, done, SerializeComma(m))
            == VisitFields(true, With(done, m[0].name, Normalize(m[0].values)), SerializeComma(m[1..]))
  {
    var e, rs := m[0], ReadableOnes(m[0].values);
    var fields := SerializeComma(m);
    if rs == [] {
      assert fields == SerializeComma(m[1..]);
    } else {
      TailIsWellFormed(m);
      StillDisjoint(done, m, []);
      FieldIsNormalized(done, e);
      assert fields[0] == Field(e.name, One(Join(rs))) && fields[1..] == SerializeComma(m[1..]);
    }
  }

  lemma {:induction false} NormalizerIs(done: HeaderMap, m: HeaderMap)
    requires WellFormed(m) && Disjoint(done, m)
    ensures VisitFields(true, done, SerializeComma(m)) == Ok(done + NormalMap(m))
    decreases m
  {
    if m == [] {
      assert done + [] == done;
    } else {
      var vs := Normalize(m[0].values);
      TailIsWellFormed(m);
      StillDisjoint(done, m, vs);
      KeyIsNormalized(done, m);
      NormalizerIs(With(done, m[0].name, vs), m[1..]);
      NormalMapUnfolds(done, m);
    }
  }

  lemma NormalMapUnfolds(done: HeaderMap, m: HeaderMap)
    requires m != []
    ensures With(done, m[0].name, Normalize(m[0].values)) + NormalMap(m[1..]) == done + NormalMap(m)
  {
    var vs, rest := Normalize(m[0].values), NormalMap(m[1..]);
    if vs == [] {
      assert NormalMap(m) == rest;
    } else {
      Associate(done, [Entry(m[0].name, vs)], rest);
    }
  }

  lemma Associate(a: HeaderMap, b: HeaderMap, c: HeaderMap)
    ensures a + b + c == a + (b + c)
  {
  }

  /** Serializing and reading back never fails, and does to each key what Normalize says. */
  lemma CommaRoundTrip(m: HeaderMap)
    requires WellFormed(m)
    ensures Deserialize(true, SerializeComma(m)) == Ok(NormalMap(m))
    ensures WellFormed(NormalMap(m)) && StableMap(NormalMap(m))
  {
    CompositeIs(m);
    NormalMapFacts(m);
  }

  lemma CompositeIs(m: HeaderMap)
    requires WellFormed(m)
    ensures Deserialize(true, SerializeComma(m)) == Ok(NormalMap(m))
  {
    NormalizerIs([], m);
    NothingBefore(NormalMap(m));
  }

  lemma NothingBefore(n: HeaderMap)
    ensures [] + n == n
  {
  }

  lemma {:induction false} NormalNames(m: HeaderMap, i: nat)
    requires i < |NormalMap(m)|
    ensures exists j :: 0 <= j < |m| && m[j].name == NormalMap(m)[i].name
  {
    var first, rest := Normalize(m[0].values), NormalMap(m[1..]);
    if first != [] && i == 0 {
      assert m[0].name == NormalMap(m)[0].name;
    } else {
      var k := if first == [] then i else i - 1;
      assert NormalMap(m)[i] == rest[k];
      NormalNames(m[1..], k);
      var j :| 0 <= j < |m[1..]| && m[1..][j].name == rest[k].name;
      assert m[j + 1].name == rest[k].name;
    }
  }

  lemma {:induction false} NormalMapFacts(m: HeaderMap)
    requires WellFormed(m)
    ensures WellFormed(NormalMap(m)) && StableMap(NormalMap(m))
  {
    if m != [] {
      TailIsWellFormed(m);
      NormalMapFacts(m[1..]);
      NormalizeFacts(m[0].values);
      var first, rest := Normalize(m[0].values), NormalMap(m[1..]);
      forall i | 0 <= i < |rest| ensures rest[i].name != m[0].name {
        NormalNames(m[1..], i);
        var j :| 0 <= j < |m[1..]| && m[1..][j].name == rest[i].name;
        assert m[j + 1].name == rest[i].name;
      }
      if first == [] {
        NothingBefore(rest);
      } else {
        HeadJoins(Entry(m[0].name, first), rest);
      }
    }
  }

  lemma HeadJoins(e: Entry, rest: HeaderMap)
    requires WellFormed(rest) && StableMap(rest) && Fresh(rest, e.name)
    requires WellFormedEntry(e) && Stable(e.values)
    ensures WellFormed([e] + rest) && StableMap([e] + rest)
  {
    var n := [e] + rest;
    forall i | 0 <= i < |n| ensures WellFormedEntry(n[i]) && Stable(n[i].values) {
      if i > 0 { assert n[i] == rest[i - 1]; }
    }
    forall i, j | 0 <= i < j < |n| ensures n[i].name != n[j].name {
      assert n[j] == rest[j - 1];
      if i > 0 { assert n[i] == rest[i - 1]; }
    }
  }

  lemma {:induction false} StableMapIff(m: HeaderMap)
    requires WellFormed(m)
    ensures NormalMap(m) == m <==> StableMap(m)
  {
    if m != [] {
      TailIsWellFormed(m);
      StableMapIff(m[1..]);
      StableIff(m[0].values);
      NormalMapShrinks(m[1..]);
      assert m == [m[0]] + m[1..];
      var n := NormalMap(m);
      if n == m {
        assert n[0] == m[0] && n[1..] == NormalMap(m[1..]) == m[1..];
        forall i | 0 <= i < |m| ensures Stable(m[i].values) { if i > 0 { assert m[1..][i - 1] == m[i]; } }
      }
      if StableMap(m) {
        assert Stable(m[0].values);
        forall i | 0 <= i < |m[1..]| ensures Stable(m[1..][i].values) { assert m[1..][i] == m[i + 1]; }
      }
    }
  }

  lemma {:induction false} NormalMapShrinks(m: HeaderMap)
    ensures |NormalMap(m)| <= |m|
  {
    if m != [] { NormalMapShrinks(m[1..]); }
  }

  /** The composite is the identity, order of values included, on exactly the maps whose every key is
      stable. */
  lemma IdentityIff(m: HeaderMap)
    requires WellFormed(m)
    ensures Deserialize(true, SerializeComma(m)) == Ok(m) <==> StableMap(m)
  {
    CommaRoundTrip(m);
    StableMapIff(m);
  }

  /** A second pass changes nothing. */
  lemma Idempotent(m: HeaderMap)
    requires WellFormed(m)
    ensures Deserialize(true, SerializeComma(m)).Ok?
    ensures var n := Deserialize(true, SerializeComma(m)).value;
            Deserialize(true, SerializeComma(n)) == Ok(n)
  {
    CommaRoundTrip(m);
    IdentityIff(NormalMap(m));
  }

  lemma MultiKeyRead(utf8: Text -> bool, done: HeaderMap, m: HeaderMap)
    requires WellFormed(m) && Disjoint(done, m) && m != [] && SerializeMulti(utf8, m).Ok?
    ensures SerializeMulti(utf8, m[1..]).Ok?
    ensures VisitFields(false, done, SerializeMulti(utf8, m).value)
            == VisitFields(false, done + [m[0]], SerializeMulti(utf8, m[1..]).value)
  {
    var e, rest := m[0], SerializeMulti(utf8, m[1..]).value;
    TailIsWellFormed(m);
    StillDisjoint(done, m, e.values);
    TextsAre(done, e.name, e.values);
    AppendAllToFresh(done, e.name, [], e.values);
    assert [] + e.values == e.values;
    var fields := SerializeMulti(utf8, m).value;
    assert fields[0] == Field(e.name, Strings(e.values)) && fields[1..] == rest;
    assert VisitField(false, done, fields[0]) == Ok(done + [e]);
  }

  lemma MoveFirstKey(done: HeaderMap, m: HeaderMap)
    requires WellFormed(m) && Disjoint(done, m) && m != []
    ensures WellFormed(m[1..]) && Disjoint(done + [m[0]], m[1..])
    ensures done + [m[0]] + m[1..] == done + m
  {
    TailIsWellFormed(m);
    StillDisjoint(done, m, m[0].values);
  }

  lemma {:induction false} MultiFieldsRead(utf8: Text -> bool, done: HeaderMap, m: HeaderMap)
    requires WellFormed(m) && Disjoint(done, m) && SerializeMulti(utf8, m).Ok?
    ensures VisitFields(false, done, SerializeMulti(utf8, m).value) == Ok(done + m)
    decreases m
  {
    if m == [] {
      assert done + [] == done;
    } else {
      MoveFirstKey(done, m);
      MultiKeyRead(utf8, done, m);
      MultiFieldsRead(utf8, done + [m[0]], m[1..]);
    }
  }

  /** The multi-value form is lossless: whenever serializing succeeds, reading back gives the map. */
  lemma MultiRoundTrip(utf8: Text -> bool, m: HeaderMap)
    requires WellFormed(m) && SerializeMulti(utf8, m).Ok?
    ensures Deserialize(false, SerializeMulti(utf8, m).value) == Ok(m)
  {
    MultiFieldsRead(utf8, [], m);
    assert [] + m == m;
  }

  /** Serializing the multi-value form fails on exactly the maps with a value that is not UTF-8. */
  lemma {:induction false} MultiFailsIff(utf8: Text -> bool, m: HeaderMap)
    ensures SerializeMulti(utf8, m).Ok? <==> forall i, v :: 0 <= i < |m| && v in m[i].values ==> utf8(v)
  {
    if m != [] {
      FirstBadFacts(utf8, m[0].values);
      MultiFailsIff(utf8, m[1..]);
      if SerializeMulti(utf8, m).Ok? {
        forall i, v | 0 <= i < |m| && v in m[i].values ensures utf8(v) {
          if i > 0 { assert m[i] == m[1..][i - 1]; }
        }
      } else if FirstBad(utf8, m[0].values).None? {
        var i, v :| 0 <= i < |m[1..]| && v in m[1..][i].values && !utf8(v);
        assert m[i + 1] == m[1..][i];
      }
    }
  }

  /** The error names a value of the map that is not UTF-8. */
  lemma {:induction false} MultiErrorIs(utf8: Text -> bool, m: HeaderMap) returns (i: nat, j: nat)
    requires SerializeMulti(utf8, m).Err?
    ensures i < |m| && j < |m[i].values| && !utf8(m[i].values[j])
    ensures SerializeMulti(utf8, m).error == NotUtf8(m[i].values[j])
  {
    FirstBadFacts(utf8, m[0].values);
    if FirstBad(utf8, m[0].values).Some? {
      i := 0;
      var k :| 0 <= k < |m[0].values| && m[0].values[k] == FirstBad(utf8, m[0].values).value
               && !utf8(m[0].values[k]);
      j := k;
    } else {
      i, j := MultiErrorIs(utf8, m[1..]);
      i := i + 1;
    }
  }

  lemma {:induction false} FirstBadFacts(utf8: Text -> bool, values: seq<Text>)
    ensures match FirstBad(utf8, values)
            case None => forall i :: 0 <= i < |values| ==> utf8(values[i])
            case Some(bad) => exists i :: 0 <= i < |values| && values[i] == bad && !utf8(bad)
  {
    if values != [] && utf8(values[0]) {
      FirstBadFacts(utf8, values[1..]);
      if FirstBad(utf8, values[1..]).Some? {
        var i :| 0 <= i < |values[1..]| && values[1..][i] == FirstBad(utf8, values[1..]).value;
        assert values[i + 1] == values[1..][i];
      }
    }
  }

  /* ---------- what reading leaves under each key ---------- */

  /** The values of a key; none if the map does not have it. */
  function Lookup(m: HeaderMap, key: Text): seq<Text> {
    if m == [] then []
    else if m[0].name == key then m[0].values
    else Lookup(m[1..], key)
  }

  /** They are those of the key's one entry. */
  lemma {:induction false} LookupIs(m: HeaderMap, key: Text, values: seq<Text>)
    requires WellFormed(m)
    ensures Entry(key, values) in m <==> values != [] && Lookup(m, key) == values
  {
    if m != [] {
      TailIsWellFormed(m);
      LookupIs(m[1..], key, values);
      forall i | 0 <= i < |m[1..]| ensures m[1..][i].name != m[0].name { assert m[1..][i] == m[i + 1]; }
    }
  }

  lemma {:induction false} LookupInsert(m: HeaderMap, name: Text, v: Text, key: Text)
    ensures Lookup(Insert(m, name, v), key) == if key == name then [v] else Lookup(m, key)
  {
    if m != [] && m[0].name != name { LookupInsert(m[1..], name, v, key); }
  }

  lemma {:induction false} LookupAppend(m: HeaderMap, name: Text, v: Text, key: Text)
    ensures Lookup(Append(m, name, v), key) == if key == name then Lookup(m, key) + [v] else Lookup(m, key)
  {
    if m != [] && m[0].name != name { LookupAppend(m[1..], name, v, key); }
  }

  lemma {:induction false} LookupAppendAll(m: HeaderMap, name: Text, vs: seq<Text>, key: Text)
    ensures Lookup(AppendAll(m, name, vs), key) == if key == name then Lookup(m, key) + vs else Lookup(m, key)
    decreases vs
  {
    if vs != [] {
      LookupAppend(m, name, vs[0], key);
      LookupAppendAll(Append(m, name, vs[0]), name, vs[1..], key);
      assert Lookup(m, key) + [vs[0]] + vs[1..] == Lookup(m, key) + vs;
    }
  }

  /** What a text in a list stands for: itself, or when splitting is on and it has a comma its trimmed
      non-empty parts. */
  function Pieces(split: bool, text: Text): seq<Text> {
    if split && COMMA in text then Parts(SplitCommas(text)) else [text]
  }

  function AllPieces(split: bool, texts: seq<Text>): seq<Text> {
    if texts == [] then [] else Pieces(split, texts[0]) + AllPieces(split, texts[1..])
  }

  /** Without splitting a list is what it is. */
  lemma {:induction false} UnsplitPieces(texts: seq<Text>)
    ensures AllPieces(false, texts) == texts
  {
    if texts != [] {
      UnsplitPieces(texts[1..]);
      assert texts == [texts[0]] + texts[1..];
    }
  }

  /** Everything in the field is acceptable: its name, and every piece of its texts. */
  predicate Acceptable(split: bool, f: Field) {
    && ParseName(f.name).Some?
    && (f.value.One? ==> AllValues(Pieces(split, f.value.text)))
    && (f.value.Strings? ==> forall i :: 0 <= i < |f.value.texts| ==> AllValues(Pieces(split, f.value.texts[i])))
    && (f.value.Blobs? ==> AllValues(f.value.blobs))
  }

  /** A name is a non-empty token and counts in lower case; so names differing in case only are one key. */
  lemma NameIs(s: Text)
    ensures ParseName(s).Some? <==>
      s != [] && forall i :: 0 <= i < |s| ==>
        48 <= s[i] <= 57 || 65 <= s[i] <= 90 || 97 <= s[i] <= 122
        || s[i] in {33, 35, 36, 37, 38, 39, 42, 43, 45, 46, 94, 95, 96, 124, 126}
    ensures ParseName(s).Some? ==>
      && |ParseName(s).value| == |s|
      && (forall i :: 0 <= i < |s| ==>
            ParseName(s).value[i] == if 65 <= s[i] <= 90 then s[i] + 32 else s[i])
  {
  }

  /** A text that is not split is acceptable when it has no control byte but TAB, and not DEL. */
  lemma UnsplitIs(split: bool, name: Text, text: Text)
    requires ParseName(name).Some? && !(split && 44 in text)
    ensures Acceptable(split, Field(name, One(text))) <==>
      forall i :: 0 <= i < |text| ==> text[i] == 9 || (32 <= text[i] && text[i] != 127)
  {
    assert Pieces(split, text)[0] == text;
  }

  lemma {:induction false} PartsRefused(m: HeaderMap, name: Text, raw: seq<Text>)
    ensures AppendParts(m, name, raw).Ok? <==> AllValues(Parts(raw))
    decreases raw
  {
    if raw != [] {
      var part, rest := Trim(raw[0]), Parts(raw[1..]);
      if part == [] {
        assert Parts(raw) == rest;
        PartsRefused(m, name, raw[1..]);
      } else {
        assert Parts(raw)[0] == part && Parts(raw)[1..] == rest;
        PartsRefused(Append(m, name, part), name, raw[1..]);
        if AllValues(Parts(raw)) { assert forall i :: 0 <= i < |rest| ==> rest[i] == Parts(raw)[i + 1]; }
        if AllValues(rest) && IsValue(part) {
          assert forall i :: 0 < i < |Parts(raw)| ==> Parts(raw)[i] == rest[i - 1];
        }
      }
    }
  }

  /** A text in list position: refused, or its pieces appended. */
  lemma TextRead(split: bool, m: HeaderMap, name: Text, text: Text)
    ensures VisitText(split, m, name, text).Ok? <==> AllValues(Pieces(split, text))
    ensures AllValues(Pieces(split, text)) ==>
              VisitText(split, m, name, text) == Ok(AppendAll(m, name, Pieces(split, text)))
  {
    if split && COMMA in text {
      PartsRefused(m, name, SplitCommas(text));
      if AllValues(Pieces(split, text)) { AppendPartsAre(m, name, SplitCommas(text)); }
    } else {
      assert Pieces(split, text)[0] == text;
      assert AppendAll(Append(m, name, text), name, []) == Append(m, name, text);
      assert [text][1..] == [];
    }
  }

  lemma {:induction false} TextsRead(split: bool, m: HeaderMap, name: Text, texts: seq<Text>, key: Text)
    ensures VisitTexts(split, m, name, texts).Ok?
            <==> forall i :: 0 <= i < |texts| ==> AllValues(Pieces(split, texts[i]))
    ensures VisitTexts(split, m, name, texts).Ok? ==>
              Lookup(VisitTexts(split, m, name, texts).value, key)
              == if key == name then Lookup(m, key) + AllPieces(split, texts) else Lookup(m, key)
    decreases texts
  {
    if texts != [] {
      TextRead(split, m, name, texts[0]);
      if AllValues(Pieces(split, texts[0])) {
        var n := AppendAll(m, name, Pieces(split, texts[0]));
        LookupAppendAll(m, name, Pieces(split, texts[0]), key);
        TextsRead(split, n, name, texts[1..], key);
        assert forall i :: 0 < i < |texts| ==> texts[i] == texts[1..][i - 1];
        assert forall i :: 0 <= i < |texts[1..]| ==> texts[1..][i] == texts[i + 1];
      }
    }
  }

  /** One field: refused, or its key's values are replaced by a lone unsplit string, or added to by the
      pieces of a lone split one or of a list; other keys stay. */
  lemma FieldRead(split: bool, m: HeaderMap, f: Field, key: Text)
    ensures VisitField(split, m, f).Ok? <==> Acceptable(split, f)
    ensures Acceptable(split, f) ==>
      Lookup(VisitField(split, m, f).value, key) ==
        if ParseName(f.name) != Some(key) then Lookup(m, key)
        else if f.value.Strings? then
          Lookup(m, key) + (if split then AllPieces(true, f.value.texts) else f.value.texts)
        else if f.value.Blobs? then Lookup(m, key) + f.value.blobs
        else if split && COMMA in f.value.text then Lookup(m, key) + Parts(SplitCommas(f.value.text))
        else [f.value.text]
  {
    if ParseName(f.name).Some? {
      var name := ParseName(f.name).value;
      if f.value.Strings? {
        TextsRead(split, m, name, f.value.texts, key);
        UnsplitPieces(f.value.texts);
      } else if f.value.Blobs? {
        TextsRead(false, m, name, f.value.blobs, key);
        UnsplitPieces(f.value.blobs);
        BlobsAcceptable(f.value.blobs);
      } else {
        LoneRead(split, m, f, key);
      }
    }
  }

  lemma LoneRead(split: bool, m: HeaderMap, f: Field, key: Text)
    requires f.value.One? && ParseName(f.name).Some?
    ensures VisitField(split, m, f).Ok? <==> AllValues(Pieces(split, f.value.text))
    ensures VisitField(split, m, f).Ok? ==>
      Lookup(VisitField(split, m, f).value, key) ==
        if ParseName(f.name) != Some(key) then Lookup(m, key)
        else if split && COMMA in f.value.text then Lookup(m, key) + Parts(SplitCommas(f.value.text))
        else [f.value.text]
  {
    var name, text := ParseName(f.name).value, f.value.text;
    if split && COMMA in text {
      TextRead(split, m, name, text);
      LookupAppendAll(m, name, Pieces(split, text), key);
    } else {
      assert Pieces(split, text)[0] == text;
      LookupInsert(m, name, text, key);
    }
  }

  lemma BlobsAcceptable(blobs: seq<Text>)
    ensures (forall i :: 0 <= i < |blobs| ==> AllValues(Pieces(false, blobs[i]))) <==> AllValues(blobs)
  {
    if AllValues(blobs) {
    } else {
      var i :| 0 <= i < |blobs| && !IsValue(blobs[i]);
      assert Pieces(false, blobs[i])[0] == blobs[i];
    }
  }

  lemma {:induction false} OneMoreField(split: bool, m: HeaderMap, fields: seq<Field>, f: Field)
    ensures VisitFields(split, m, fields + [f]) ==
      match VisitFields(split, m, fields)
      case Err(e) => Err(e)
      case Ok(n) => VisitField(split, n, f)
    decreases fields
  {
    var all := fields + [f];
    if fields == [] {
      assert all[0] == f && all[1..] == [];
    } else {
      assert all[0] == fields[0] && all[1..] == fields[1..] + [f];
      if VisitField(split, m, fields[0]).Ok? {
        OneMoreField(split, VisitField(split, m, fields[0]).value, fields[1..], f);
      }
    }
  }

  /** What all fields together leave under a key, read from the last one back: a lone string that is not
      split is all there is; anything else comes after what was there before. */
  function Left(split: bool, fields: seq<Field>, key: Text): seq<Text> {
    if fields == [] then []
    else
      var f, before := fields[|fields| - 1], Left(split, fields[..|fields| - 1], key);
      if ParseName(f.name) != Some(key) then before
      else
        match f.value
        case One(text) => if split && COMMA in text then before + Parts(SplitCommas(text)) else [text]
        case Strings(texts) => before + (if split then AllPieces(true, texts) else texts)
        case Blobs(blobs) => before + blobs
  }

  lemma {:induction false} FieldsRead(split: bool, fields: seq<Field>, key: Text)
    ensures Deserialize(split, fields).Ok? <==> forall i :: 0 <= i < |fields| ==> Acceptable(split, fields[i])
    ensures Deserialize(split, fields).Ok? ==>
              Lookup(Deserialize(split, fields).value, key) == Left(split, fields, key)
  {
    if fields != [] {
      var n := |fields| - 1;
      var rest, f := fields[..n], fields[n];
      FieldsRead(split, rest, key);
      assert fields == rest + [f];
      OneMoreField(split, [], rest, f);
      assert forall i :: 0 <= i < n ==> rest[i] == fields[i];
      if Deserialize(split, rest).Ok? {
        FieldRead(split, Deserialize(split, rest).value, f, key);
      }
    }
  }

  /** A key's field that is the only one of its name leaves what it says. */
  lemma {:induction false} OnlyFieldLeft(split: bool, fields: seq<Field>, i: nat, key: Text)
    requires i < |fields| && ParseName(fields[i].name) == Some(key)
    requires forall j :: 0 <= j < |fields| && j != i ==> ParseName(fields[j].name) != Some(key)
    ensures Left(split, fields, key) ==
      if fields[i].value.Strings? then (if split then AllPieces(true, fields[i].value.texts) else fields[i].value.texts)
      else if fields[i].value.Blobs? then fields[i].value.blobs
      else if split && COMMA in fields[i].value.text then Parts(SplitCommas(fields[i].value.text))
      else [fields[i].value.text]
    decreases |fields|
  {
    var n := |fields| - 1;
    if i < n {
      OnlyFieldLeft(split, fields[..n], i, key);
    } else {
      NothingLeft(split, fields[..n], key);
    }
  }

  lemma {:induction false} NothingLeft(split: bool, fields: seq<Field>, key: Text)
    requires forall j :: 0 <= j < |fields| ==> ParseName(fields[j].name) != Some(key)
    ensures Left(split, fields, key) == []
  {
    if fields != [] { NothingLeft(split, fields[..|fields| - 1], key); }
  }

  predicate OnlyOfItsName(fields: seq<Field>, i: nat)
    requires i < |fields|
  {
    && ParseName(fields[i].name).Some?
    && forall j :: 0 <= j < |fields| && j != i ==> ParseName(fields[j].name) != ParseName(fields[i].name)
  }

  lemma ReadingIs(split: bool, fields: seq<Field>)
    ensures var r := Deserialize(split, fields);
      && (r.Ok? <==> forall i :: 0 <= i < |fields| ==> Acceptable(split, fields[i]))
      && (r.Ok? ==> forall key :: Lookup(r.value, key) == Left(split, fields, key))
    ensures forall i :: 0 <= i < |fields| && OnlyOfItsName(fields, i) ==>
      Left(split, fields, ParseName(fields[i].name).value) ==
        if fields[i].value.Strings? then
          (if split then AllPieces(true, fields[i].value.texts) else fields[i].value.texts)
        else if fields[i].value.Blobs? then fields[i].value.blobs
        else if split && 44 in fields[i].value.text then Parts(SplitCommas(fields[i].value.text))
        else [fields[i].value.text]
  {
    FieldsRead(split, fields, []);
    forall key | Deserialize(split, fields).Ok?
      ensures Lookup(Deserialize(split, fields).value, key) == Left(split, fields, key)
    {
      FieldsRead(split, fields, key);
    }
    forall i | 0 <= i < |fields| && OnlyOfItsName(fields, i)
      ensures Left(split, fields, ParseName(fields[i].name).value) ==
        if fields[i].value.Strings? then
          (if split then AllPieces(true, fields[i].value.texts) else fields[i].value.texts)
        else if fields[i].value.Blobs? then fields[i].value.blobs
        else if split && 44 in fields[i].value.text then Parts(SplitCommas(fields[i].value.text))
        else [fields[i].value.text]
    {
      OnlyFieldLeft(split, fields, i, ParseName(fields[i].name).value);
    }
  }

  /** A lone string that is not split replaces whatever fields of the same name left before it. */
  lemma LoneReplaces(split: bool, fields: seq<Field>, name: Text, text: Text, key: Text)
    requires ParseName(name) == Some(key) && !(split && COMMA in text)
    requires Deserialize(split, fields + [Field(name, One(text))]).Ok?
    ensures Lookup(Deserialize(split, fields + [Field(name, One(text))]).value, key) == [text]
  {
    var all := fields + [Field(name, One(text))];
    FieldsRead(split, all, key);
    assert all[..|fields|] == fields;
  }

  /** Fields of one name otherwise add up. */
  lemma ListsAddUp(split: bool, fields: seq<Field>, name: Text, texts: seq<Text>, key: Text)
    requires ParseName(name) == Some(key) && Deserialize(split, fields + [Field(name, Strings(texts))]).Ok?
    ensures Deserialize(split, fields).Ok?
    ensures Lookup(Deserialize(split, fields + [Field(name, Strings(texts))]).value, key)
            == Lookup(Deserialize(split, fields).value, key) + (if split then AllPieces(true, texts) else texts)
  {
    var all := fields + [Field(name, Strings(texts))];
    OneMoreField(split, [], fields, Field(name, Strings(texts)));
    FieldsRead(split, all, key);
    FieldsRead(split, fields, key);
    assert all[..|fields|] == fields;
  }

  /** The first field that is not acceptable decides the error: its name, or its text when it is a lone one
      that is not split. */
  lemma FirstErrorWins(split: bool, good: seq<Field>, bad: Field, rest: seq<Field>)
    requires (forall i :: 0 <= i < |good| ==> Acceptable(split, good[i])) && !Acceptable(split, bad)
    ensures var r := Deserialize(split, good + [bad] + rest);
      && r.Err?
      && (ParseName(bad.name).None? ==> r.error == InvalidName(bad.name))
      && (ParseName(bad.name).Some? && bad.value.One? && !(split && COMMA in bad.value.text) ==>
            r.error == InvalidValue(bad.value.text))
  {
    FieldsRead(split, good, []);
    var m := Deserialize(split, good).value;
    OneMoreField(split, [], good, bad);
    FieldRead(split, m, bad, []);
    ErrorStays(split, [], good + [bad], rest);
  }

  lemma {:induction false} ErrorStays(split: bool, m: HeaderMap, fields: seq<Field>, rest: seq<Field>)
    requires VisitFields(split, m, fields).Err?
    ensures VisitFields(split, m, fields + rest) == VisitFields(split, m, fields)
    decreases fields
  {
    assert (fields + rest)[0] == fields[0] && (fields + rest)[1..] == fields[1..] + rest;
    if VisitField(split, m, fields[0]).Ok? {
      ErrorStays(split, VisitField(split, m, fields[0]).value, fields[1..], rest);
    }
  }

  /* ---------- splitting, trimming and joining, without their loops ---------- */

  /** Splitting at commas: a text with none is its own only part; otherwise its first part ends at the first
      comma and the others are those of the rest. */
  lemma SplitIs(a: Text, b: Text)
    requires 44 !in a
    ensures SplitCommas(a) == [a]
    ensures SplitCommas(a + [44] + b) == [a] + SplitCommas(b)
  {
    SplitAlone(a);
    SplitAfterComma(a, b);
  }

  /** Trimming takes white space off both ends, and all of it. */
  lemma TrimIs(s: Text) returns (before: Text, after: Text)
    ensures s == before + Trim(s) + after
    ensures forall b :: b in before + after ==> 9 <= b <= 13 || b == 32
    ensures Trim(s) != [] ==> var t := Trim(s);
      !(9 <= t[0] <= 13 || t[0] == 32) && !(9 <= t[|t| - 1] <= 13 || t[|t| - 1] == 32)
  {
    before := BlanksBefore(s);
    after := BlanksAfter(TrimStart(s));
    TrimIsStretch(s);
    assert before + (Trim(s) + after) == before + Trim(s) + after;
  }

  lemma {:induction false} BlanksBefore(s: Text) returns (before: Text)
    ensures s == before + TrimStart(s) && forall b :: b in before ==> Blank(b)
  {
    if s != [] && Blank(s[0]) {
      var rest := BlanksBefore(s[1..]);
      before := [s[0]] + rest;
      assert s == [s[0]] + s[1..];
    } else {
      before := [];
    }
  }

  lemma {:induction false} BlanksAfter(s: Text) returns (after: Text)
    ensures s == TrimEnd(s) + after && forall b :: b in after ==> Blank(b)
  {
    if s != [] && Blank(s[|s| - 1]) {
      var rest := BlanksAfter(s[..|s| - 1]);
      after := rest + [s[|s| - 1]];
      assert s == s[..|s| - 1] + [s[|s| - 1]];
    } else {
      after := [];
    }
  }

  /** The parts are the trimmed ones, in order, without the empty. */
  lemma {:induction false} PartsAre(a: seq<Text>, b: seq<Text>, t: Text)
    ensures Parts([]) == [] && Parts([t]) == if Trim(t) == [] then [] else [Trim(t)]
    ensures Parts(a + b) == Parts(a) + Parts(b)
  {
    assert [t][1..] == [];
    if a == [] {
      assert a + b == b;
    } else {
      assert (a + b)[0] == a[0] && (a + b)[1..] == a[1..] + b;
      PartsAre(a[1..], b, t);
    }
  }

  /** Joining puts a comma and a space between, and nothing else. */
  lemma {:induction false} JoinIs(a: seq<Text>, b: seq<Text>, t: Text)
    ensures Join([]) == [] && Join([t]) == t
    ensures a != [] && b != [] ==> Join(a + b) == Join(a) + [44, 32] + Join(b)
  {
    if a != [] && b != [] {
      assert (a + b)[0] == a[0] && (a + b)[1..] == a[1..] + b;
      if |a| > 1 {
        JoinIs(a[1..], b, t);
        assert a[0] + [44, 32] + (Join(a[1..]) + [44, 32] + Join(b))
               == a[0] + [44, 32] + Join(a[1..]) + [44, 32] + Join(b);
      } else {
        assert a[1..] + b == b;
      }
    }
  }

  /** The readable ones are those of visible ASCII and tabs only, in order. */
  lemma {:induction false} ReadableOnesAre(a: seq<Text>, b: seq<Text>, t: Text)
    ensures ReadableOnes([]) == []
    ensures ReadableOnes([t]) == if forall i :: 0 <= i < |t| ==> 32 <= t[i] < 127 || t[i] == 9 then [t] else []
    ensures ReadableOnes(a + b) == ReadableOnes(a) + ReadableOnes(b)
  {
    assert [t][1..] == [];
    if a == [] {
      assert a + b == b;
    } else {
      assert (a + b)[0] == a[0] && (a + b)[1..] == a[1..] + b;
      ReadableOnesAre(a[1..], b, t);
    }
  }

  /** Each key with a readable value gives one field with those values joined; others give none. */
  lemma {:induction false} SerializedAre(a: HeaderMap, b: HeaderMap, e: Entry)
    ensures SerializeComma([]) == []
    ensures SerializeComma([e]) ==
      if ReadableOnes(e.values) == [] then [] else [Field(e.name, One(Join(ReadableOnes(e.values))))]
    ensures SerializeComma(a + b) == SerializeComma(a) + SerializeComma(b)
  {
    assert [e][1..] == [];
    if a == [] {
      assert a + b == b;
    } else {
      assert (a + b)[0] == a[0] && (a + b)[1..] == a[1..] + b;
      SerializedAre(a[1..], b, e);
    }
  }
}
