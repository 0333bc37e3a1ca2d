/**
 The request and response pipeline of the typed HTTP helper
 (src/request-builder.ts): the parameter names a path template asks for,
 interpolation of parameter values into the template, the generic request a
 caller's parameters and body turn into, the pure part of the fetch adapter
 (base URL, outgoing headers, classification of what the transport did), and
 the request codec that ends in decode-or-fail.

 The JSON serializer, the response decoder, the error reporter and the
 network transport are foreign code; they enter as function parameters.
 A rejected promise or a thrown error is the `Rejected` outcome.
 */
module RequestBuilder {
  import opened JsText

  // ---------------------------------------------------------------------------
  // Path templates and their parameters
  // ---------------------------------------------------------------------------

  /**
   The names `ParamsFromPath<Path>` derives from a template, in order. As the
   TypeScript template-literal match does, the first `/:` opens a name, which
   runs to the next `/` (or to the end); the search goes on in `/` followed by
   what comes after that `/`.
   */
  function ParamsFromPath(path: string): (names: seq<string>)
    ensures forall k :: 0 <= k < |names| ==> '/' !in names[k]
    decreases |path|
  {
    match IndexOf(path, "/:")
    case None => []
    case Some(i) =>
      var after := path[i + 2..];
      SlashChars(after);
      match IndexOf(after, "/")
      case None => [after]
      case Some(j) => [after[..j]] + ParamsFromPath("/" + after[j + 1..])
  }

  /** A `/:` marker starts at index `i` of `s`. */
  predicate MarkerStart(s: string, i: nat) {
    i + 1 < |s| && s[i] == '/' && s[i + 1] == ':'
  }

  /** The text of `s` up to its first `/`, or all of `s` when it has none. */
  function SegmentName(s: string): string
    decreases |s|
  {
    if |s| == 0 || s[0] == '/' then "" else [s[0]] + SegmentName(s[1..])
  }

  /**
   Reference reading of a template, one character at a time: the name that
   follows every `/:` marker of `s`, from left to right.
   */
  function MarkerNames(s: string): seq<string>
    decreases |s|
  {
    if |s| < 2 then []
    else if MarkerStart(s, 0) then [SegmentName(s[2..])] + MarkerNames(s[1..])
    else MarkerNames(s[1..])
  }

  lemma MarkerChars(s: string)
    ensures forall i: nat :: OccursAt(s, "/:", i) <==> MarkerStart(s, i)
  {
    forall i: nat ensures OccursAt(s, "/:", i) <==> MarkerStart(s, i) {
      if i + 2 <= |s| {
        assert s[i..i + 2][0] == s[i] && s[i..i + 2][1] == s[i + 1];
        if s[i] == '/' && s[i + 1] == ':' {
          assert s[i..i + 2] == "/:";
        }
      }
    }
  }

  lemma SlashChars(s: string)
    ensures forall i: nat :: OccursAt(s, "/", i) <==> i < |s| && s[i] == '/'
  {
    forall i: nat ensures OccursAt(s, "/", i) <==> i < |s| && s[i] == '/' {
      if i < |s| {
        assert s[i..i + 1][0] == s[i];
        if s[i] == '/' {
          assert s[i..i + 1] == "/";
        }
      }
    }
  }

  /** Positions holding no marker can be dropped from the front of the scan. */
  lemma {:induction false} MarkerNamesSkip(s: string, k: nat)
    requires k <= |s|
    requires forall m: nat :: m < k ==> !MarkerStart(s, m)
    ensures MarkerNames(s) == MarkerNames(s[k..])
    decreases k
  {
    if k > 0 {
      assert !MarkerStart(s, 0);
      forall m: nat | m < k - 1 ensures !MarkerStart(s[1..], m) {
        assert !MarkerStart(s, m + 1);
      }
      MarkerNamesSkip(s[1..], k - 1);
      assert s[1..][k - 1..] == s[k..];
    }
  }

  lemma {:induction false} SegmentNameStopsAtSlash(s: string, j: nat)
    requires j <= |s|
    requires j < |s| ==> s[j] == '/'
    requires forall m :: 0 <= m < j ==> s[m] != '/'
    ensures SegmentName(s) == s[..j]
    decreases j
  {
    if j > 0 {
      SegmentNameStopsAtSlash(s[1..], j - 1);
      assert s[..j] == [s[0]] + s[1..][..j - 1];
    }
  }

  /** Without `/:` the scan finds nothing. */
  lemma NoMarkerScan(path: string)
    requires forall i: nat :: !OccursAt(path, "/:", i)
    ensures MarkerNames(path) == []
  {
    MarkerChars(path);
    MarkerNamesSkip(path, |path|);
  }

  /** The scan skips everything before the first `/:`. */
  lemma SkipToFirstMarker(path: string, i: nat)
    requires i <= |path|
    requires forall j: nat :: j < i ==> !OccursAt(path, "/:", j)
    ensures MarkerNames(path) == MarkerNames(path[i..])
  {
    MarkerChars(path);
    MarkerNamesSkip(path, i);
  }

  /**
   The scan's first name is the one after the first `/:`, at `i`; the name
   runs for `len` characters free of `/`, and the scan goes on from the `/`
   (or the end) that follows it.
   */
  lemma FirstMarkerScan(path: string, i: nat, len: nat)
    requires i + 2 + len <= |path| && path[i..i + 2] == "/:"
    requires forall j: nat :: j < i ==> !OccursAt(path, "/:", j)
    requires forall m :: i + 2 <= m < i + 2 + len ==> path[m] != '/'
    requires i + 2 + len < |path| ==> path[i + 2 + len] == '/'
    ensures MarkerNames(path) == [path[i + 2..i + 2 + len]] + MarkerNames(path[i + 2 + len..])
  {
    SkipToFirstMarker(path, i);
    MarkerSegment(path, i, len);
    MarkerThenRest(path[i + 2..i + 2 + len], path[i + 2 + len..]);
  }

  /** The text from a `/:` splits into the marker, a name free of `/`, and what follows it. */
  lemma MarkerSegment(path: string, i: nat, len: nat)
    requires i + 2 + len <= |path| && path[i..i + 2] == "/:"
    requires forall m :: i + 2 <= m < i + 2 + len ==> path[m] != '/'
    requires i + 2 + len < |path| ==> path[i + 2 + len] == '/'
    ensures var name := path[i + 2..i + 2 + len];
      var r := path[i + 2 + len..];
      && '/' !in name
      && (|r| > 0 ==> r[0] == '/')
      && path[i..] == "/:" + name + r
  {
    var name := path[i + 2..i + 2 + len];
    forall k | 0 <= k < |name| ensures name[k] != '/' {
      assert name[k] == path[i + 2 + k];
    }
    assert path[i..] == path[i..i + 2] + name + path[i + 2 + len..];
  }

  /** A last `/:` with no `/` after it: the scan's first name is the rest of the template. */
  lemma MarkerNamesLast(path: string, i: nat)
    requires IndexOf(path, "/:") == Some(i)
    requires IndexOf(path[i + 2..], "/").None?
    ensures MarkerNames(path) == [path[i + 2..]]
  {
    var after := path[i + 2..];
    SlashChars(after);
    forall m | i + 2 <= m < |path| ensures path[m] != '/' {
      assert after[m - (i + 2)] == path[m];
    }
    FirstMarkerScan(path, i, |after|);
    assert path[i + 2..i + 2 + |after|] == after;
    assert MarkerNames(path[i + 2 + |after|..]) == [];
  }

  /** A `/:` with a `/` after it: the scan takes its name and goes on from that `/`. */
  lemma MarkerNamesStep(path: string, i: nat, j: nat)
    requires IndexOf(path, "/:") == Some(i)
    requires IndexOf(path[i + 2..], "/") == Some(j)
    ensures var after := path[i + 2..];
      && j < |after|
      && MarkerNames(path) == [after[..j]] + MarkerNames("/" + after[j + 1..])
  {
    var after := path[i + 2..];
    assert OccursAt(path, "/:", i);
    assert |after| == |path| - (i + 2);
    SlashChars(after);
    forall m | i + 2 <= m < i + 2 + j ensures path[m] != '/' {
      assert after[m - (i + 2)] == path[m];
      assert !OccursAt(after, "/", m - (i + 2));
    }
    assert OccursAt(after, "/", j);
    assert j < |after| && after[j] == '/';
    assert path[i + 2 + j] == after[j];
    FirstMarkerScan(path, i, j);
    assert path[i + 2..i + 2 + j] == after[..j];
    assert path[i + 2 + j..] == "/" + after[j + 1..];
  }

  /**
   One step of both readings: either they agree on `path` outright, or both
   take the same first name and go on in the same, shorter, `rest`.
   */
  lemma ParamsStep(path: string) returns (done: bool, name: string, rest: string)
    ensures done ==> ParamsFromPath(path) == MarkerNames(path)
    ensures !done ==> |rest| < |path|
    ensures !done ==> ParamsFromPath(path) == [name] + ParamsFromPath(rest)
    ensures !done ==> MarkerNames(path) == [name] + MarkerNames(rest)
  {
    var first := IndexOf(path, "/:");
    if first.None? {
      NoMarkerScan(path);
      return true, "", "";
    }
    var i := first.value;
    var after := path[i + 2..];
    var next := IndexOf(after, "/");
    if next.None? {
      MarkerNamesLast(path, i);
      return true, "", "";
    }
    MarkerNamesStep(path, i, next.value);
    return false, after[..next.value], "/" + after[next.value + 1..];
  }

  /**
   The pattern-matching recursion of `ParamsFromPath` and the character scan
   agree: the parameters are exactly the names after each `/:`, each ending at
   the next `/` or at the end of the template, from left to right.
   */
  lemma {:induction false} ParamsAreMarkerNames(path: string)
    ensures ParamsFromPath(path) == MarkerNames(path)
    decreases |path|
  {
    var done, name, rest := ParamsStep(path);
    if !done {
      ParamsAreMarkerNames(rest);
      calc {
        ParamsFromPath(path);
        [name] + ParamsFromPath(rest);
        [name] + MarkerNames(rest);
        MarkerNames(path);
      }
    }
  }

  /** A template asks for no parameters exactly when it holds no `/:`. */
  lemma NoMarkerNoParams(path: string)
    ensures ParamsFromPath(path) == [] <==> !Contains(path, "/:")
  {
  }

  // ---------------------------------------------------------------------------
  // Interpolation
  // ---------------------------------------------------------------------------

  /** A path parameter value: `string | number` (numbers taken to be integral). */
  datatype PathValue = Str(text: string) | Num(n: int)

  /** One entry of `Object.entries(params)`. */
  datatype Entry = Entry(name: string, value: PathValue)

  /** `typeof value === 'string' ? value : value.toString()` */
  function ValueText(v: PathValue): (r: string)
    ensures v.Str? ==> r == v.text
    ensures v.Num? ==> ParseInt(r) == Some(v.n)
  {
    match v
    case Str(s) => s
    case Num(n) => NumberToStringRoundTrip(n); NumberToString(n)
  }

  /**
   `interpolate`: a left fold over the entries, each replacing the first
   occurrence of `:name` in the text built so far. Entries whose markers do
   not occur in the template change nothing; in particular, no entries give
   the template back.
   */
  function Interpolate(urlTemplate: string, params: seq<Entry>): (r: string)
    ensures (forall k :: 0 <= k < |params| ==> !Contains(urlTemplate, ":" + params[k].name)) ==> r == urlTemplate
    decreases |params|
  {
    if |params| == 0 then urlTemplate
    else
      var url := ReplaceFirst(urlTemplate, ":" + params[0].name, ValueText(params[0].value));
      assert forall k :: 0 <= k < |params[1..]| ==> params[1..][k] == params[k + 1];
      Interpolate(url, params[1..])
  }

  /** A single entry is a single `replace`. */
  lemma InterpolateOne(t: string, e: Entry)
    ensures Interpolate(t, [e]) == ReplaceFirst(t, ":" + e.name, ValueText(e.value))
  {
    assert [e][1..] == [];
  }

  /** Folding over two runs of entries is folding over the first, then the second. */
  lemma {:induction false} InterpolateConcat(t: string, a: seq<Entry>, b: seq<Entry>)
    ensures Interpolate(t, a + b) == Interpolate(Interpolate(t, a), b)
    decreases |a|
  {
    if |a| == 0 {
      assert a + b == b;
    } else {
      assert (a + b)[0] == a[0] && (a + b)[1..] == a[1..] + b;
      var url := ReplaceFirst(t, ":" + a[0].name, ValueText(a[0].value));
      InterpolateConcat(url, a[1..], b);
    }
  }

  /** Text that `replace` inserts verbatim and that cannot start a `:name` marker. */
  predicate Inert(s: string) {
    ':' !in s && '$' !in s
  }

  lemma NumberTextIsInert(n: int)
    ensures Inert(ValueText(Num(n)))
  {
    var r := NumberToString(n);
    forall k | 0 <= k < |r| ensures r[k] != ':' && r[k] != '$' {
    }
  }

  /** One parameter of a template in segment form: the `/:name` marker and the static text after it. */
  datatype Part = Part(name: string, tail: string)

  /** The markers and static tails of a template, in order. */
  function Markers(parts: seq<Part>): string
    decreases |parts|
  {
    if |parts| == 0 then ""
    else "/:" + parts[0].name + parts[0].tail + Markers(parts[1..])
  }

  /** The same text with each marker's `:name` replaced by the text of its value. */
  function Filled(parts: seq<Part>, values: seq<PathValue>): string
    requires |values| == |parts|
    decreases |parts|
  {
    if |parts| == 0 then ""
    else "/" + ValueText(values[0]) + parts[0].tail + Filled(parts[1..], values[1..])
  }

  function Names(parts: seq<Part>): (names: seq<string>)
    ensures |names| == |parts|
    ensures forall k :: 0 <= k < |parts| ==> names[k] == parts[k].name
  {
    seq(|parts|, k requires 0 <= k < |parts| => parts[k].name)
  }

  /** The entries that give each part of a template its value. */
  function Bind(parts: seq<Part>, values: seq<PathValue>): (params: seq<Entry>)
    requires |values| == |parts|
    ensures |params| == |parts|
    ensures forall k :: 0 <= k < |parts| ==> params[k] == Entry(parts[k].name, values[k])
  {
    seq(|parts|, k requires 0 <= k < |parts| => Entry(parts[k].name, values[k]))
  }

  /**
   A template whose static text holds no `:`, whose names hold no `/`, and
   whose tails start at a `/` (or are empty): each marker is a `/:name` path
   segment.
   */
  predicate WellFormed(head: string, parts: seq<Part>) {
    && ':' !in head
    && forall k :: 0 <= k < |parts| ==>
         && '/' !in parts[k].name
         && ':' !in parts[k].tail
         && (|parts[k].tail| == 0 || parts[k].tail[0] == '/')
  }

  lemma MarkersConcat(ps: seq<Part>, qs: seq<Part>)
    ensures Markers(ps + qs) == Markers(ps) + Markers(qs)
    decreases |ps|
  {
    if |ps| > 0 {
      assert (ps + qs)[0] == ps[0] && (ps + qs)[1..] == ps[1..] + qs;
      MarkersConcat(ps[1..], qs);
    } else {
      assert ps + qs == qs;
    }
  }

  /** Static text without `:` in front of a `/` adds no marker to the scan. */
  lemma StaticPrefixSkipped(head: string, r: string)
    requires ':' !in head
    requires |r| > 0 ==> r[0] == '/'
    ensures MarkerNames(head + r) == MarkerNames(r)
  {
    var s := head + r;
    forall m: nat | m < |head| ensures !MarkerStart(s, m) {
      assert m + 1 < |head| ==> s[m + 1] == head[m + 1];
      assert m + 1 == |head| && m + 1 < |s| ==> s[m + 1] == r[0];
    }
    MarkerNamesSkip(s, |head|);
    assert s[|head|..] == r;
  }

  /** A `/:name` marker followed by a `/` (or by nothing) yields `name`, then the rest. */
  lemma MarkerThenRest(name: string, r: string)
    requires '/' !in name
    requires |r| > 0 ==> r[0] == '/'
    ensures MarkerNames("/:" + name + r) == [name] + MarkerNames(r)
  {
    var s := "/:" + name + r;
    var rest := name + r;
    assert MarkerStart(s, 0) && s[2..] == rest;
    SegmentNameStopsAtSlash(rest, |name|);
    assert rest[..|name|] == name;
    var after := s[1..];
    assert after == [':'] + rest;
    forall m: nat | m < |name| + 1 ensures !MarkerStart(after, m) {
      if m > 0 {
        assert after[m] == name[m - 1];
      }
    }
    MarkerNamesSkip(after, |name| + 1);
    assert after[|name| + 1..] == r;
  }

  /** The first marker of a well-formed template gives its name; the scan goes on in its tail. */
  lemma TemplateScanStep(head: string, parts: seq<Part>)
    requires WellFormed(head, parts) && |parts| > 0
    ensures MarkerNames(head + Markers(parts))
      == [parts[0].name] + MarkerNames(parts[0].tail + Markers(parts[1..]))
  {
    var p := parts[0];
    var more := Markers(parts[1..]);
    var r := p.tail + more;
    assert |more| > 0 ==> more[0] == '/';
    assert |r| > 0 ==> r[0] == '/';
    assert head + Markers(parts) == head + ("/:" + p.name + r);
    StaticPrefixSkipped(head, "/:" + p.name + r);
    MarkerThenRest(p.name, r);
  }

  /**
   The markers of a well-formed template are what the character scan finds:
   its names, in order.
   */
  lemma {:induction false} MarkerNamesOfTemplate(head: string, parts: seq<Part>)
    requires WellFormed(head, parts)
    ensures MarkerNames(head + Markers(parts)) == Names(parts)
    decreases |parts|
  {
    if |parts| == 0 {
      StaticPrefixSkipped(head, "");
      assert head + Markers(parts) == head + "";
    } else {
      assert WellFormed(parts[0].tail, parts[1..]);
      calc {
        MarkerNames(head + Markers(parts));
        { TemplateScanStep(head, parts); }
        [parts[0].name] + MarkerNames(parts[0].tail + Markers(parts[1..]));
        { MarkerNamesOfTemplate(parts[0].tail, parts[1..]); }
        [parts[0].name] + Names(parts[1..]);
      }
    }
  }

  /** A well-formed template asks for exactly its names, in order. */
  lemma ParamsOfTemplate(head: string, parts: seq<Part>)
    requires WellFormed(head, parts)
    ensures ParamsFromPath(head + Markers(parts)) == Names(parts)
  {
    ParamsAreMarkerNames(head + Markers(parts));
    MarkerNamesOfTemplate(head, parts);
  }

  /**
   With no `:` in front of it, the `/:name` marker is the first occurrence of
   `:name`, so `replace` puts the value right after the `/`.
   */
  lemma ReplaceMarker(head: string, name: string, v: string, r: string)
    requires ':' !in head && '$' !in v
    ensures ReplaceFirst(head + "/:" + name + r, ":" + name, v) == head + "/" + v + r
  {
    var s := head + "/:" + name + r;
    var pat := ":" + name;
    var i := |head| + 1;
    assert s == head + "/" + pat + r;
    assert s[i..i + |pat|] == pat;
    OccurrenceStartsWith(s, pat);
    forall j: nat | j < i ensures !OccursAt(s, pat, j) {
      assert s[j] != ':' by {
        if j < |head| { assert s[j] == head[j]; } else { assert s[j] == '/'; }
      }
    }
    ReplaceFirstAt(s, pat, v, i);
    assert s[..i] == head + "/" && s[i + |pat|..] == r;
  }

  /** Filling the first marker moves it, with its value and tail, into the static head. */
  lemma InterpolateFirst(head: string, parts: seq<Part>, values: seq<PathValue>, rest: string)
    requires |values| == |parts| > 0
    requires ':' !in head && Inert(ValueText(values[0]))
    ensures var head' := head + "/" + ValueText(values[0]) + parts[0].tail;
      Interpolate(head + Markers(parts) + rest, Bind(parts, values))
        == Interpolate(head' + Markers(parts[1..]) + rest, Bind(parts[1..], values[1..]))
  {
    var p := parts[0];
    var v := ValueText(values[0]);
    var r := p.tail + Markers(parts[1..]) + rest;
    calc {
      Interpolate(head + Markers(parts) + rest, Bind(parts, values));
      { BindFirst(parts, values); }
      Interpolate(ReplaceFirst(head + Markers(parts) + rest, ":" + p.name, v), Bind(parts[1..], values[1..]));
      { MarkersFirst(head, parts, rest);
        ReplaceMarker(head, p.name, v, r); }
      Interpolate(head + "/" + v + r, Bind(parts[1..], values[1..]));
      { assert head + "/" + v + r == head + "/" + v + p.tail + Markers(parts[1..]) + rest; }
      Interpolate(head + "/" + v + p.tail + Markers(parts[1..]) + rest, Bind(parts[1..], values[1..]));
    }
  }

  /** The first entry bound to a template is its first part's; the others are the rest's. */
  lemma BindFirst(parts: seq<Part>, values: seq<PathValue>)
    requires |values| == |parts| > 0
    ensures Bind(parts, values)[0] == Entry(parts[0].name, values[0])
    ensures Bind(parts, values)[1..] == Bind(parts[1..], values[1..])
  {
  }

  /** The first marker of a template, with the text that follows it. */
  lemma MarkersFirst(head: string, parts: seq<Part>, rest: string)
    requires |parts| > 0
    ensures head + Markers(parts) + rest
      == head + "/:" + parts[0].name + (parts[0].tail + Markers(parts[1..]) + rest)
  {
    var p := parts[0];
    var more := Markers(parts[1..]);
    assert Markers(parts) == ("/:" + p.name) + p.tail + more;
    Regroup(head, "/:" + p.name, p.tail, more, rest);
    Associative(head, "/:", p.name);
  }

  /** Regrouping a concatenation of five strings. */
  lemma Regroup(a: string, b: string, c: string, d: string, e: string)
    ensures a + (b + c + d) + e == (a + b) + (c + d + e)
  {
  }

  /** The static text a filled marker adds to the head holds no `:`. */
  lemma FilledHead(head: string, v: PathValue, tail: string)
    requires ':' !in head && Inert(ValueText(v)) && ':' !in tail
    ensures ':' !in head + "/" + ValueText(v) + tail
  {
  }

  /** The conditions on the parts and values of a template hold for all but the first. */
  lemma DropFirstPart(parts: seq<Part>, values: seq<PathValue>)
    requires |values| == |parts| > 0
    requires forall k :: 0 <= k < |parts| ==> ':' !in parts[k].tail
    requires forall k :: 0 <= k < |values| ==> Inert(ValueText(values[k]))
    ensures forall k :: 0 <= k < |parts[1..]| ==> ':' !in parts[1..][k].tail
    ensures forall k :: 0 <= k < |values[1..]| ==> Inert(ValueText(values[1..][k]))
  {
    forall k | 0 <= k < |parts[1..]| ensures ':' !in parts[1..][k].tail {
      assert parts[1..][k] == parts[k + 1];
    }
    forall k | 0 <= k < |values[1..]| ensures Inert(ValueText(values[1..][k])) {
      assert values[1..][k] == values[k + 1];
    }
  }

  /** Filling the first marker and then the rest is filling them all. */
  lemma FilledFirst(head: string, parts: seq<Part>, values: seq<PathValue>, rest: string)
    requires |values| == |parts| > 0
    ensures head + Filled(parts, values) + rest
      == (head + "/" + ValueText(values[0]) + parts[0].tail) + Filled(parts[1..], values[1..]) + rest
  {
    var v := ValueText(values[0]);
    var first := "/" + v + parts[0].tail;
    var more := Filled(parts[1..], values[1..]);
    assert Filled(parts, values) == first + more;
    Associative(head, first, more);
    Associative(head, "/" + v, parts[0].tail);
    Associative(head, "/", v);
  }

  /**
   One step of the fill: after the first marker is filled, what is left is the
   same problem with a longer static head and one part fewer.
   */
  lemma FillStep(head: string, parts: seq<Part>, values: seq<PathValue>, rest: string) returns (head': string)
    requires |values| == |parts| > 0
    requires ':' !in head
    requires forall k :: 0 <= k < |parts| ==> ':' !in parts[k].tail
    requires forall k :: 0 <= k < |values| ==> Inert(ValueText(values[k]))
    ensures ':' !in head'
    ensures forall k :: 0 <= k < |parts[1..]| ==> ':' !in parts[1..][k].tail
    ensures forall k :: 0 <= k < |values[1..]| ==> Inert(ValueText(values[1..][k]))
    ensures Interpolate(head + Markers(parts) + rest, Bind(parts, values))
      == Interpolate(head' + Markers(parts[1..]) + rest, Bind(parts[1..], values[1..]))
    ensures head + Filled(parts, values) + rest == head' + Filled(parts[1..], values[1..]) + rest
  {
    head' := head + "/" + ValueText(values[0]) + parts[0].tail;
    FilledHead(head, values[0], parts[0].tail);
    InterpolateFirst(head, parts, values, rest);
    DropFirstPart(parts, values);
    FilledFirst(head, parts, values, rest);
  }

  /**
   Interpolating the entries of the first parameters, in template order and with
   inert values, fills in exactly those markers and leaves everything after them
   (later markers included) verbatim.
   */
  lemma {:induction false} InterpolateFills(head: string, parts: seq<Part>, values: seq<PathValue>, rest: string)
    requires |values| == |parts|
    requires ':' !in head
    requires forall k :: 0 <= k < |parts| ==> ':' !in parts[k].tail
    requires forall k :: 0 <= k < |values| ==> Inert(ValueText(values[k]))
    ensures Interpolate(head + Markers(parts) + rest, Bind(parts, values)) == head + Filled(parts, values) + rest
    decreases |parts|
  {
    if |parts| > 0 {
      var head' := FillStep(head, parts, values, rest);
      InterpolateFills(head', parts[1..], values[1..], rest);
    } else {
      assert Markers(parts) == "" && Filled(parts, values) == "";
      assert head + "" + rest == head + rest;
    }
  }

  /**
   Round trip of a template: a well-formed template asks for exactly its
   names, and binding each name to an inert value fills every marker, so the
   result matches the template with its parameters as wildcards.
   */
  lemma InterpolateRoundTrip(head: string, parts: seq<Part>, values: seq<PathValue>)
    requires WellFormed(head, parts) && |values| == |parts|
    requires forall k :: 0 <= k < |values| ==> Inert(ValueText(values[k]))
    ensures var t := head + Markers(parts);
      && ParamsFromPath(t) == Names(parts)
      && Interpolate(t, Bind(parts, values)) == head + Filled(parts, values)
  {
    ParamsOfTemplate(head, parts);
    InterpolateFills(head, parts, values, "");
    assert head + Markers(parts) + "" == head + Markers(parts);
    assert head + Filled(parts, values) + "" == head + Filled(parts, values);
  }

  /**
   A parameter left out of the entries keeps its marker: binding only the
   first parameters fills those and leaves the later `/:name` text verbatim.
   */
  lemma MissingParamsStayVerbatim(head: string, ps: seq<Part>, qs: seq<Part>, values: seq<PathValue>)
    requires |values| == |ps| && ':' !in head
    requires forall k :: 0 <= k < |ps| ==> ':' !in ps[k].tail
    requires forall k :: 0 <= k < |values| ==> Inert(ValueText(values[k]))
    ensures Interpolate(head + Markers(ps + qs), Bind(ps, values)) == head + Filled(ps, values) + Markers(qs)
  {
    MarkersConcat(ps, qs);
    assert head + Markers(ps + qs) == head + Markers(ps) + Markers(qs);
    InterpolateFills(head, ps, values, Markers(qs));
  }

  // ---------------------------------------------------------------------------
  // Entries in any order
  // ---------------------------------------------------------------------------

  /**
   Names that cannot capture each other's markers: none holds a `:`, and none
   is a prefix of another (so no two are equal).
   */
  predicate Distinguishable(parts: seq<Part>) {
    && (forall k :: 0 <= k < |parts| ==> ':' !in parts[k].name)
    && (forall a, b :: 0 <= a < |parts| && 0 <= b < |parts| && a != b ==> !(parts[a].name <= parts[b].name))
  }

  /** One part of a template part way through interpolation: filled with its value, or still `/:name`. */
  function Segment(p: Part, v: PathValue, filled: bool): (r: string)
    ensures |r| > 0 && r[0] == '/'
  {
    if filled then "/" + ValueText(v) + p.tail else "/:" + p.name + p.tail
  }

  /** The markers of a template after the entries for the parts marked in `filled` have been applied. */
  function Rendered(parts: seq<Part>, values: seq<PathValue>, filled: seq<bool>): (r: string)
    requires |values| == |parts| && |filled| == |parts|
    ensures |r| > 0 ==> r[0] == '/'
    decreases |parts|
  {
    if |parts| == 0 then ""
    else Segment(parts[0], values[0], filled[0]) + Rendered(parts[1..], values[1..], filled[1..])
  }

  /** The entries taken in the order `order` gives, by index. */
  function Permuted(params: seq<Entry>, order: seq<nat>): (r: seq<Entry>)
    requires forall k :: 0 <= k < |order| ==> order[k] < |params|
    ensures |r| == |order|
    ensures forall k :: 0 <= k < |order| ==> r[k] == params[order[k]]
  {
    seq(|order|, k requires 0 <= k < |order| => params[order[k]])
  }

  /** `order` lists each index below `n` exactly once. */
  predicate IsPermutation(order: seq<nat>, n: nat) {
    && (forall k :: 0 <= k < |order| ==> order[k] < n)
    && (forall k, l :: 0 <= k < l < |order| ==> order[k] != order[l])
    && (forall i :: 0 <= i < n ==> i in order)
  }

  /** The parts filled after the entries in `order` are applied on top of `filled`. */
  function Marked(filled: seq<bool>, order: seq<nat>): (r: seq<bool>)
    ensures |r| == |filled|
    ensures forall i :: 0 <= i < |filled| ==> (r[i] <==> filled[i] || i in order)
  {
    seq(|filled|, i requires 0 <= i < |filled| => filled[i] || i in order)
  }

  /** With nothing filled, a template in segment form is its markers. */
  lemma {:induction false} RenderedUnfilled(parts: seq<Part>, values: seq<PathValue>, filled: seq<bool>)
    requires |values| == |parts| && |filled| == |parts|
    requires forall k :: 0 <= k < |filled| ==> !filled[k]
    ensures Rendered(parts, values, filled) == Markers(parts)
    decreases |parts|
  {
    if |parts| > 0 {
      assert forall k :: 0 <= k < |filled[1..]| ==> filled[1..][k] == filled[k + 1];
      RenderedUnfilled(parts[1..], values[1..], filled[1..]);
      Associative("/:" + parts[0].name, parts[0].tail, Markers(parts[1..]));
    }
  }

  /** With everything filled, a template in segment form is its filled text. */
  lemma {:induction false} RenderedFilled(parts: seq<Part>, values: seq<PathValue>, filled: seq<bool>)
    requires |values| == |parts| && |filled| == |parts|
    requires forall k :: 0 <= k < |filled| ==> filled[k]
    ensures Rendered(parts, values, filled) == Filled(parts, values)
    decreases |parts|
  {
    if |parts| > 0 {
      assert forall k :: 0 <= k < |filled[1..]| ==> filled[1..][k] == filled[k + 1];
      RenderedFilled(parts[1..], values[1..], filled[1..]);
      Associative("/" + ValueText(values[0]), parts[0].tail, Filled(parts[1..], values[1..]));
    }
  }

  /** Static text without `:` cannot hold the start of a `:name` marker. */
  lemma SkipColonFree(h: string, x: string, n: string, v: string)
    requires ':' !in h && '$' !in v
    ensures ReplaceFirst(h + x, ":" + n, v) == h + ReplaceFirst(x, ":" + n, v)
  {
    OccurrenceStartsWith(h + x, ":" + n);
    forall q: nat | q < |h| ensures !OccursAt(h + x, ":" + n, q) {
      assert (h + x)[q] == h[q];
    }
    ReplaceFirstAfter(h, x, ":" + n, v);
  }

  /**
   The marker `/:name`, followed by a `/` or by nothing, is not an occurrence
   of `:n` when `n` has no `/` and is not a prefix of `name`.
   */
  lemma NotAtOtherMarker(name: string, x: string, n: string)
    requires '/' !in n && !(n <= name)
    requires |x| > 0 ==> x[0] == '/'
    ensures !OccursAt("/:" + name + x, ":" + n, 1)
  {
    var s := "/:" + name + x;
    var pat := ":" + n;
    if 1 + |pat| <= |s| {
      if |n| <= |name| {
        assert n != name[..|n|];
        var m :| 0 <= m < |n| && n[m] != name[m];
        assert s[1..1 + |pat|][m + 1] == name[m];
        assert pat[m + 1] == n[m];
      } else {
        assert s[1..1 + |pat|][1 + |name|] == x[0] == '/';
        assert pat[1 + |name|] == n[|name|] != '/';
      }
    }
  }

  /** Replacing `:n` passes over a marker for another name that `n` does not prefix. */
  lemma SkipOtherMarker(name: string, x: string, n: string, v: string)
    requires ':' !in name && '/' !in n && !(n <= name) && '$' !in v
    requires |x| > 0 ==> x[0] == '/'
    ensures ReplaceFirst("/:" + name + x, ":" + n, v) == "/:" + name + ReplaceFirst(x, ":" + n, v)
  {
    var a := "/:" + name;
    var s := a + x;
    OccurrenceStartsWith(s, ":" + n);
    NotAtOtherMarker(name, x, n);
    forall q: nat | q < |a| ensures !OccursAt(s, ":" + n, q) {
      if q != 1 {
        assert s[q] == a[q];
        assert q >= 2 ==> a[q] == name[q - 2];
      }
    }
    ReplaceFirstAfter(a, x, ":" + n, v);
  }

  /** Replacing the marker of a later part passes over the first part, filled or not. */
  lemma PassSegment(p: Part, v0: PathValue, filled: bool, r: string, n: string, v: string)
    requires ':' !in p.name && ':' !in p.tail && (|p.tail| == 0 || p.tail[0] == '/')
    requires Inert(ValueText(v0)) && '/' !in n && !(n <= p.name) && '$' !in v
    requires |r| > 0 ==> r[0] == '/'
    ensures ReplaceFirst(Segment(p, v0, filled) + r, ":" + n, v)
      == Segment(p, v0, filled) + ReplaceFirst(r, ":" + n, v)
  {
    var seg := Segment(p, v0, filled);
    if filled {
      SkipColonFree(seg, r, n, v);
    } else {
      Associative("/:" + p.name, p.tail, r);
      SkipOtherMarker(p.name, p.tail + r, n, v);
      SkipColonFree(p.tail, r, n, v);
      Associative("/:" + p.name, p.tail, ReplaceFirst(r, ":" + n, v));
    }
  }

  /** The conditions on a template's parts hold for all but the first. */
  lemma DropFirstDistinguishable(parts: seq<Part>)
    requires |parts| > 0 && WellFormed("", parts) && Distinguishable(parts)
    ensures WellFormed("", parts[1..]) && Distinguishable(parts[1..])
  {
    assert forall k :: 0 <= k < |parts[1..]| ==> parts[1..][k] == parts[k + 1];
  }

  /**
   With distinguishable names, the entry for any unfilled part finds exactly
   that part's marker, whatever else is already filled.
   */
  lemma {:induction false} FillAnyMarker(parts: seq<Part>, values: seq<PathValue>, filled: seq<bool>, j: nat)
    requires |values| == |parts| && |filled| == |parts|
    requires WellFormed("", parts) && Distinguishable(parts)
    requires forall k :: 0 <= k < |values| ==> Inert(ValueText(values[k]))
    requires j < |parts| && !filled[j]
    ensures ReplaceFirst(Rendered(parts, values, filled), ":" + parts[j].name, ValueText(values[j]))
      == Rendered(parts, values, filled[j := true])
    decreases |parts|
  {
    if j == 0 {
      FillFirstMarker(parts, values, filled);
    } else {
      DropFirstPart(parts, values);
      DropFirstDistinguishable(parts);
      assert parts[1..][j - 1] == parts[j] && values[1..][j - 1] == values[j];
      FillAnyMarker(parts[1..], values[1..], filled[1..], j - 1);
      FillLaterMarker(parts, values, filled, j);
    }
  }

  /** The entry for the first part, still unfilled, fills it. */
  lemma FillFirstMarker(parts: seq<Part>, values: seq<PathValue>, filled: seq<bool>)
    requires |values| == |parts| && |filled| == |parts| > 0 && !filled[0]
    requires Inert(ValueText(values[0]))
    ensures ReplaceFirst(Rendered(parts, values, filled), ":" + parts[0].name, ValueText(values[0]))
      == Rendered(parts, values, filled[0 := true])
  {
    var p := parts[0];
    var v := ValueText(values[0]);
    var r := Rendered(parts[1..], values[1..], filled[1..]);
    var after := filled[0 := true];
    ReplaceMarker("", p.name, v, p.tail + r);
    assert after[1..] == filled[1..];
    Associative("/:" + p.name, p.tail, r);
    Associative("/" + v, p.tail, r);
    assert "" + "/:" + p.name == "/:" + p.name && "" + "/" + v == "/" + v;
    assert Rendered(parts, values, filled) == ("/:" + p.name + p.tail) + r;
    assert Rendered(parts, values, after) == ("/" + v + p.tail) + r;
  }

  /** Filling a later part, once it is filled in the rest, passes over the first part. */
  lemma FillLaterMarker(parts: seq<Part>, values: seq<PathValue>, filled: seq<bool>, j: nat)
    requires |values| == |parts| && |filled| == |parts| && 0 < j < |parts|
    requires WellFormed("", parts) && Distinguishable(parts)
    requires Inert(ValueText(values[0])) && Inert(ValueText(values[j]))
    requires ReplaceFirst(Rendered(parts[1..], values[1..], filled[1..]), ":" + parts[j].name, ValueText(values[j]))
      == Rendered(parts[1..], values[1..], filled[1..][j - 1 := true])
    ensures ReplaceFirst(Rendered(parts, values, filled), ":" + parts[j].name, ValueText(values[j]))
      == Rendered(parts, values, filled[j := true])
  {
    var after := filled[j := true];
    assert after[1..] == filled[1..][j - 1 := true] && after[0] == filled[0];
    assert !(parts[j].name <= parts[0].name);
    PassSegment(parts[0], values[0], filled[0], Rendered(parts[1..], values[1..], filled[1..]),
      parts[j].name, ValueText(values[j]));
  }

  /**
   Applying the entries listed in `order` (distinct, all still unfilled) fills
   exactly those parts, whatever the order.
   */
  lemma {:induction false} FillInOrder(head: string, parts: seq<Part>, values: seq<PathValue>, filled: seq<bool>, order: seq<nat>)
    requires |values| == |parts| && |filled| == |parts| && ':' !in head
    requires WellFormed("", parts) && Distinguishable(parts)
    requires forall k :: 0 <= k < |values| ==> Inert(ValueText(values[k]))
    requires forall k :: 0 <= k < |order| ==> order[k] < |parts| && !filled[order[k]]
    requires forall k, l :: 0 <= k < l < |order| ==> order[k] != order[l]
    ensures Interpolate(head + Rendered(parts, values, filled), Permuted(Bind(parts, values), order))
      == head + Rendered(parts, values, Marked(filled, order))
    decreases |order|
  {
    if |order| == 0 {
      assert Marked(filled, order) == filled;
    } else {
      var j := order[0];
      var after := filled[j := true];
      FillEntry(head, parts, values, filled, order);
      OrderTail(filled, order, |parts|);
      FillInOrder(head, parts, values, after, order[1..]);
    }
  }

  /** The first entry of `order` fills its part; the rest of the entries are what is left of `order`. */
  lemma FillEntry(head: string, parts: seq<Part>, values: seq<PathValue>, filled: seq<bool>, order: seq<nat>)
    requires |values| == |parts| && |filled| == |parts| && ':' !in head
    requires WellFormed("", parts) && Distinguishable(parts)
    requires forall k :: 0 <= k < |values| ==> Inert(ValueText(values[k]))
    requires |order| > 0 && order[0] < |parts| && !filled[order[0]]
    requires forall k :: 0 <= k < |order| ==> order[k] < |parts|
    ensures Interpolate(head + Rendered(parts, values, filled), Permuted(Bind(parts, values), order))
      == Interpolate(head + Rendered(parts, values, filled[order[0] := true]), Permuted(Bind(parts, values), order[1..]))
  {
    var j := order[0];
    var es := Permuted(Bind(parts, values), order);
    assert es[1..] == Permuted(Bind(parts, values), order[1..]);
    SkipColonFree(head, Rendered(parts, values, filled), parts[j].name, ValueText(values[j]));
    FillAnyMarker(parts, values, filled, j);
  }

  /** What is left of `order` after its first index still meets the conditions, one part more filled. */
  lemma OrderTail(filled: seq<bool>, order: seq<nat>, n: nat)
    requires |filled| == n && |order| > 0
    requires forall k :: 0 <= k < |order| ==> order[k] < n && !filled[order[k]]
    requires forall k, l :: 0 <= k < l < |order| ==> order[k] != order[l]
    ensures var after := filled[order[0] := true];
      && (forall k :: 0 <= k < |order[1..]| ==> order[1..][k] < n && !after[order[1..][k]])
      && (forall k, l :: 0 <= k < l < |order[1..]| ==> order[1..][k] != order[1..][l])
      && Marked(after, order[1..]) == Marked(filled, order)
  {
    var j := order[0];
    var after := filled[j := true];
    forall k | 0 <= k < |order[1..]|
      ensures order[1..][k] < n && !after[order[1..][k]]
    {
      assert order[1..][k] == order[k + 1] != j;
    }
    forall k, l | 0 <= k < l < |order[1..]|
      ensures order[1..][k] != order[1..][l]
    {
      assert order[1..][k] == order[k + 1] && order[1..][l] == order[l + 1];
    }
    assert order == [j] + order[1..];
    assert Marked(after, order[1..]) == Marked(filled, order);
  }

  /**
   With distinguishable names, the order of the entries does not matter:
   interpolating the entries of a well-formed template in any order, with
   inert values, fills every marker with its own value.
   */
  lemma InterpolateAnyOrder(head: string, parts: seq<Part>, values: seq<PathValue>, order: seq<nat>)
    requires WellFormed(head, parts) && Distinguishable(parts) && |values| == |parts|
    requires forall k :: 0 <= k < |values| ==> Inert(ValueText(values[k]))
    requires IsPermutation(order, |parts|)
    ensures Interpolate(head + Markers(parts), Permuted(Bind(parts, values), order)) == head + Filled(parts, values)
  {
    var none := seq(|parts|, k => false);
    RenderedUnfilled(parts, values, none);
    FillInOrder(head, parts, values, none, order);
    RenderedFilled(parts, values, Marked(none, order));
  }

  /**
   A parameter left out of the entries keeps its marker wherever it stands:
   with distinguishable names, entries for any subset of the parameters, in
   any order, fill exactly the parts listed and leave every other part's
   `/:name` as written.
   */
  lemma OmittedParamsKeepMarkers(head: string, parts: seq<Part>, values: seq<PathValue>, order: seq<nat>)
    requires WellFormed(head, parts) && Distinguishable(parts) && |values| == |parts|
    requires forall k :: 0 <= k < |values| ==> Inert(ValueText(values[k]))
    requires forall k :: 0 <= k < |order| ==> order[k] < |parts|
    requires forall k, l :: 0 <= k < l < |order| ==> order[k] != order[l]
    ensures Interpolate(head + Markers(parts), Permuted(Bind(parts, values), order))
      == head + Rendered(parts, values, seq(|parts|, i => i in order))
  {
    var none := seq(|parts|, k => false);
    RenderedUnfilled(parts, values, none);
    FillInOrder(head, parts, values, none, order);
    assert Marked(none, order) == seq(|parts|, i => i in order);
  }

  /**
   A template with one trailing parameter asks for that name, and binding it
   to an inert value puts the value's text after the last `/`.
   */
  lemma SingleParam(head: string, name: string, v: PathValue)
    requires ':' !in head && '/' !in name && Inert(ValueText(v))
    ensures ParamsFromPath(head + "/:" + name) == [name]
    ensures Interpolate(head + "/:" + name, [Entry(name, v)]) == head + "/" + ValueText(v)
  {
    var parts := [Part(name, "")];
    assert WellFormed(head, parts);
    assert head + Markers(parts) == head + "/:" + name by {
      assert parts[1..] == [];
      assert Markers(parts) == "/:" + name;
    }
    assert head + Filled(parts, [v]) == head + "/" + ValueText(v) by {
      assert parts[1..] == [];
      assert Filled(parts, [v]) == "/" + ValueText(v);
    }
    assert Names(parts) == [name];
    assert Bind(parts, [v]) == [Entry(name, v)];
    InterpolateRoundTrip(head, parts, [v]);
  }

  /**
   The sample template: `/sites/:siteId` asks for `siteId`, and the number 5
   goes in as its decimal text.
   */
  lemma SitesTemplateScenario()
    ensures ParamsFromPath("/sites/:siteId") == ["siteId"]
    ensures Interpolate("/sites/:siteId", [Entry("siteId", Num(5))]) == "/sites/5"
  {
    assert ValueText(Num(5)) == "5";
    NumberTextIsInert(5);
    assert "/sites" + "/:" + "siteId" == "/sites/:siteId";
    assert "/sites" + "/" + "5" == "/sites/5";
    SingleParam("/sites", "siteId", Num(5));
  }

  /** The integration test's route: `/test/:hello` asks for `hello`, and `world` fills it. */
  lemma TestRouteScenario()
    ensures ParamsFromPath("/test/:hello") == ["hello"]
    ensures Interpolate("/test/:hello", [Entry("hello", Str("world"))]) == "/test/world"
  {
    assert "/test" + "/:" + "hello" == "/test/:hello";
    assert "/test" + "/" + "world" == "/test/world";
    SingleParam("/test", "hello", Str("world"));
  }

  /**
   The first `:name` wins even when it only starts a longer marker: with
   `r` beginning `x/:id`, the entry for `id` turns `/a/:idx/:id` into
   `/a/7x/:id`, and the real `:id` stays put.
   */
  lemma NamePrefixCaptured(head: string, name: string, r: string, v: PathValue)
    requires ':' !in head && Inert(ValueText(v))
    ensures Interpolate(head + "/:" + name + r, [Entry(name, v)]) == head + "/" + ValueText(v) + r
  {
    InterpolateOne(head + "/:" + name + r, Entry(name, v));
    ReplaceMarker(head, name, ValueText(v), r);
  }

  /**
   When one name is a prefix of another, the order of the entries matters:
   `id` first captures the start of `:idx`, and `idx` then finds no marker.
   In template order both markers are filled.
   */
  lemma EntryOrderMatters()
    ensures Interpolate("/:idx/:id", [Entry("id", Str("A")), Entry("idx", Str("B"))]) == "/Ax/:id"
    ensures Interpolate("/:idx/:id", [Entry("idx", Str("B")), Entry("id", Str("A"))]) == "/B/A"
  {
    ShorterNameFirst("/:idx/:id", Entry("id", Str("A")), Entry("idx", Str("B")), "/Ax/:id");
    LongerNameFirst("/:idx/:id", Entry("idx", Str("B")), Entry("id", Str("A")), "/B/A");
  }

  /** Two entries are two `replace` steps, the first entry's first. */
  lemma InterpolateTwo(t: string, a: Entry, b: Entry)
    ensures Interpolate(t, [a, b])
      == ReplaceFirst(ReplaceFirst(t, ":" + a.name, ValueText(a.value)), ":" + b.name, ValueText(b.value))
  {
    assert [a, b][1..] == [b] && [b][1..] == [];
  }

  // The strings come in as parameters fixed by `requires` rather than as
  // literals, which keeps the solver from unfolding functions on the literals.
  lemma ShorterNameFirst(t: string, id: Entry, idx: Entry, url: string)
    requires t == "/:idx/:id" && id == Entry("id", Str("A")) && idx == Entry("idx", Str("B"))
    requires url == "/Ax/:id"
    ensures Interpolate(t, [id, idx]) == url
  {
    InterpolateTwo(t, id, idx);
    ShortMarkerCaptures(t, id, url);
    NoMarkerLeft(url, ":" + idx.name);
  }

  // The strings come in as parameters fixed by `requires` rather than as
  // literals, which keeps the solver from unfolding functions on the literals.
  lemma ShortMarkerCaptures(t: string, id: Entry, url: string)
    requires t == "/:idx/:id" && id == Entry("id", Str("A")) && url == "/Ax/:id"
    ensures ReplaceFirst(t, ":" + id.name, ValueText(id.value)) == url
  {
    assert t == "" + "/:" + id.name + "x/:id";
    assert "" + "/" + ValueText(id.value) + "x/:id" == url;
    ReplaceMarker("", id.name, ValueText(id.value), "x/:id");
  }

  // The strings come in as parameters fixed by `requires` rather than as
  // literals, which keeps the solver from unfolding functions on the literals.
  lemma LongerNameFirst(t: string, idx: Entry, id: Entry, url: string)
    requires t == "/:idx/:id" && idx == Entry("idx", Str("B")) && id == Entry("id", Str("A"))
    requires url == "/B/A"
    ensures Interpolate(t, [idx, id]) == url
  {
    var mid := "/B" + "/:" + id.name + "";
    assert t == "" + "/:" + idx.name + "/:id";
    assert "" + "/" + ValueText(idx.value) + "/:id" == mid;
    assert "/B" + "/" + ValueText(id.value) + "" == url;
    InterpolateTwo(t, idx, id);
    ReplaceMarker("", idx.name, ValueText(idx.value), "/:id");
    ReplaceMarker("/B", id.name, ValueText(id.value), "");
  }

  /**
   `/Ax/:id` is too short after its only `:` to hold `:idx`. (The strings are
   parameters fixed by `requires`, which keeps the solver from unfolding
   functions on literals.)
   */
  lemma NoMarkerLeft(s: string, pat: string)
    requires s == "/Ax/:id" && pat == ":idx"
    ensures !Contains(s, pat)
  {
    OccurrenceStartsWith(s, pat);
    forall i: nat | i <= |s| ensures !OccursAt(s, pat, i) {
      assert i + |pat| <= |s| ==> s[i] != ':';
    }
  }

  /**
   A value holding `$&` is expanded by `replace` into the matched marker, so
   the marker comes back instead of the value's text.
   */
  lemma DollarPatternScenario()
    ensures Interpolate("/a/:p", [Entry("p", Str("$&"))]) == "/a/:p"
  {
    InterpolateOne("/a/:p", Entry("p", Str("$&")));
    ReplaceWithMatch("/a/:p", ":p");
  }

  // ---------------------------------------------------------------------------
  // Generic requests
  // ---------------------------------------------------------------------------

  datatype Method = GET | POST

  datatype Header = Header(name: string, value: string)

  /** The part of `RequestInit` the helper fills in. */
  datatype RequestInit = RequestInit(headers: seq<Header>, body: string, httpMethod: Method)

  datatype GenericRequest = GenericRequest(url: string, requestInit: RequestInit)

  /**
   `createRequest<ReqBody>()(method, urlTemplate)(urlParams, reqBody)`, with
   `serialize` standing for `JSON.stringify`: the interpolated URL, the fixed
   method, a single JSON content-type header and the serialized body.
   */
  function CreateRequest<B>(serialize: B -> string, httpMethod: Method, urlTemplate: string, urlParams: seq<Entry>, reqBody: B): (r: GenericRequest)
    ensures r.url == Interpolate(urlTemplate, urlParams)
    ensures r.requestInit.headers == [Header("Content-Type", "application/json")]
    ensures r.requestInit.httpMethod == httpMethod && r.requestInit.body == serialize(reqBody)
  {
    var requestInit := RequestInit([Header("Content-Type", "application/json")], serialize(reqBody), httpMethod);
    GenericRequest(Interpolate(urlTemplate, urlParams), requestInit)
  }

  /**
   For a well-formed template and values for its parameters in order, the
   request's URL is the template with every marker filled in.
   */
  lemma CreateRequestFillsTemplate<B>(serialize: B -> string, httpMethod: Method, head: string, parts: seq<Part>, values: seq<PathValue>, reqBody: B)
    requires WellFormed(head, parts) && |values| == |parts|
    requires forall k :: 0 <= k < |values| ==> Inert(ValueText(values[k]))
    ensures var r := CreateRequest(serialize, httpMethod, head + Markers(parts), Bind(parts, values), reqBody);
      && r.url == head + Filled(parts, values)
      && r.requestInit == RequestInit([Header("Content-Type", "application/json")], serialize(reqBody), httpMethod)
  {
    InterpolateRoundTrip(head, parts, values);
  }

  // ---------------------------------------------------------------------------
  // The fetch adapter
  // ---------------------------------------------------------------------------

  datatype Protocol = Http | Https

  /** `FetchAdapterConfig`: protocol and port are optional. */
  datatype FetchAdapterConfig = FetchAdapterConfig(protocol: Option<Protocol>, host: string, port: Option<int>)

  function ProtocolName(p: Protocol): string {
    match p
    case Http => "http"
    case Https => "https"
  }

  /** `config.protocol ?? 'http'` */
  function EffectiveProtocol(config: FetchAdapterConfig): (p: Protocol)
    ensures config.protocol.Some? ==> p == config.protocol.value
    ensures config.protocol.None? ==> p == Http
  {
    if config.protocol.Some? then config.protocol.value else Http
  }

  /**
   `protocol://host`, then `:port` when a port is given: the URL starts with
   the scheme and the host, and after them comes nothing, or a `:` followed
   by text that reads back as the port.
   */
  function BaseUrl(config: FetchAdapterConfig): (url: string)
    ensures var authority := ProtocolName(EffectiveProtocol(config)) + "://" + config.host;
      && OccursAt(url, authority, 0)
      && (config.port.None? ==> url == authority)
      && (config.port.Some? ==>
            |url| > |authority| && url[|authority|] == ':'
            && ParseInt(url[|authority| + 1..]) == Some(config.port.value))
  {
    var authority := ProtocolName(EffectiveProtocol(config)) + "://" + config.host;
    if config.port.Some? then
      PortSuffix(authority, config.port.value);
      authority + (":" + NumberToString(config.port.value))
    else
      assert (authority + "")[..|authority|] == authority;
      authority + ""
  }

  /** After the scheme and host come a `:` and text that reads back as the port. */
  lemma PortSuffix(authority: string, port: int)
    ensures var url := authority + (":" + NumberToString(port));
      && OccursAt(url, authority, 0)
      && |url| > |authority| && url[|authority|] == ':'
      && ParseInt(url[|authority| + 1..]) == Some(port)
  {
    var text := NumberToString(port);
    NumberToStringRoundTrip(port);
    assert (authority + (":" + text))[|authority| + 1..] == text;
    assert (authority + (":" + text))[..|authority|] == authority;
  }

  /** Reads a base URL back into the configuration it was assembled from. */
  function ParseBaseUrl(url: string): Option<FetchAdapterConfig> {
    if OccursAt(url, "http://", 0) then ParseAuthority(Http, url[7..])
    else if OccursAt(url, "https://", 0) then ParseAuthority(Https, url[8..])
    else None
  }

  function ParseAuthority(protocol: Protocol, authority: string): Option<FetchAdapterConfig> {
    match IndexOf(authority, ":")
    case None => Some(FetchAdapterConfig(Some(protocol), authority, None))
    case Some(k) =>
      match ParseInt(authority[k + 1..])
      case None => None
      case Some(port) => Some(FetchAdapterConfig(Some(protocol), authority[..k], Some(port)))
  }

  /** The scheme is read off the front of the URL. */
  lemma SchemeParsed(p: Protocol, authority: string)
    ensures ParseBaseUrl(ProtocolName(p) + "://" + authority) == ParseAuthority(p, authority)
  {
    var scheme := ProtocolName(p) + "://";
    var url := scheme + authority;
    assert url[..|scheme|] == scheme && url[|scheme|..] == authority;
    if p == Http {
      assert OccursAt(url, "http://", 0);
    } else {
      assert !OccursAt(url, "http://", 0) by {
        assert url[..7][4] == url[4] == 's';
      }
      assert OccursAt(url, "https://", 0);
    }
  }

  /** The first `:` after a host without `:` is the one right after the host. */
  lemma ColonAfterHost(host: string, rest: string)
    requires ':' !in host
    ensures IndexOf(host + ":" + rest, ":") == Some(|host|)
  {
    var authority := host + ":" + rest;
    OccurrenceStartsWith(authority, ":");
    forall j: nat | j < |host| ensures !OccursAt(authority, ":", j) {
      assert authority[j] == host[j];
    }
    assert authority[|host|..|host| + 1] == ":";
    IndexOfLeast(authority, ":", |host|);
  }

  /** A host without `:` holds no `:` for the parser to split at. */
  lemma NoColonInHost(host: string)
    requires ':' !in host
    ensures IndexOf(host, ":").None?
  {
    OccurrenceStartsWith(host, ":");
  }

  /** What follows the host's `:` is read as the port. */
  lemma AuthorityWithPort(p: Protocol, host: string, text: string, port: int)
    requires ':' !in host && ParseInt(text) == Some(port)
    ensures ParseAuthority(p, host + ":" + text) == Some(FetchAdapterConfig(Some(p), host, Some(port)))
  {
    var authority := host + ":" + text;
    ColonAfterHost(host, text);
    assert authority[|host| + 1..] == text && authority[..|host|] == host;
  }

  /** A port printed after the host's `:` is read back as that number. */
  lemma AuthorityWithNumber(p: Protocol, host: string, port: int)
    requires ':' !in host
    ensures ParseAuthority(p, host + (":" + NumberToString(port)))
      == Some(FetchAdapterConfig(Some(p), host, Some(port)))
  {
    var text := NumberToString(port);
    NumberToStringRoundTrip(port);
    AuthorityWithPort(p, host, text, port);
    Associative(host, ":", text);
  }

  /** Host and port are split at the first `:`, which the host does not hold. */
  lemma AuthorityParsed(p: Protocol, host: string, port: Option<int>)
    requires ':' !in host
    ensures var portText := if port.Some? then ":" + NumberToString(port.value) else "";
      ParseAuthority(p, host + portText) == Some(FetchAdapterConfig(Some(p), host, port))
  {
    if port.Some? {
      AuthorityWithNumber(p, host, port.value);
    } else {
      NoColonInHost(host);
      assert host + "" == host;
    }
  }

  /**
   The base URL keeps every part of the configuration, the default protocol
   being `http`: reading it back gives the host, the port (if any) and the
   protocol actually used.
   */
  lemma BaseUrlRoundTrip(config: FetchAdapterConfig)
    requires ':' !in config.host
    ensures ParseBaseUrl(BaseUrl(config)) == Some(config.(protocol := Some(EffectiveProtocol(config))))
  {
    var p := EffectiveProtocol(config);
    var portText := if config.port.Some? then ":" + NumberToString(config.port.value) else "";
    assert BaseUrl(config) == ProtocolName(p) + "://" + (config.host + portText);
    SchemeParsed(p, config.host + portText);
    AuthorityParsed(p, config.host, config.port);
  }

  /** `config.protocol ?? 'http'`: leaving the protocol out is asking for `http`. */
  lemma DefaultProtocolIsHttp(host: string, port: Option<int>)
    ensures BaseUrl(FetchAdapterConfig(None, host, port)) == BaseUrl(FetchAdapterConfig(Some(Http), host, port))
    ensures OccursAt(BaseUrl(FetchAdapterConfig(None, host, port)), "http://" + host, 0)
  {
    var url := BaseUrl(FetchAdapterConfig(None, host, port));
    assert url == "http://" + host + (if port.Some? then ":" + NumberToString(port.value) else "");
    assert url[..7 + |host|] == "http://" + host;
  }

  /** The test's adapter configuration: `localhost`, port 3333, no protocol. */
  lemma LocalhostBaseUrl()
    ensures BaseUrl(FetchAdapterConfig(None, "localhost", Some(3333))) == "http://localhost:3333"
  {
    calc {
      NumberToString(3333);
      NatToDecimal(333) + [DigitChar(3)];
      NatToDecimal(33) + [DigitChar(3)] + [DigitChar(3)];
      NatToDecimal(3) + [DigitChar(3)] + [DigitChar(3)] + [DigitChar(3)];
      { assert DigitChar(3) == '3'; }
      "3333";
    }
    assert "http" + "://" + "localhost" + (":" + "3333") == "http://localhost:3333";
  }

  /**
   The integration test's request, `POST /test/:hello` with `hello` bound to
   `world`, goes through the adapter for `localhost:3333` to the transport at
   `http://localhost:3333/test/world`, with the outgoing init.
   */
  lemma LocalhostTestUrl<B, J>(serialize: B -> string, transport: (string, RequestInit) -> TransportOutcome<J>, body: B)
    ensures var request := CreateRequest(serialize, POST, "/test/:hello", [Entry("hello", Str("world"))], body);
      FetchAdapter(FetchAdapterConfig(None, "localhost", Some(3333)), transport, request)
        == Classify(transport("http://localhost:3333/test/world", OutgoingInit(request.requestInit)))
  {
    var request := CreateRequest(serialize, POST, "/test/:hello", [Entry("hello", Str("world"))], body);
    TestRouteScenario();
    LocalhostBaseUrl();
    TestUrlText(BaseUrl(FetchAdapterConfig(None, "localhost", Some(3333))), request.url, "http://localhost:3333/test/world");
  }

  // The strings come in as parameters fixed by `requires` rather than as
  // literals, which keeps the solver from unfolding functions on the literals.
  lemma TestUrlText(base: string, path: string, url: string)
    requires base == "http://localhost:3333" && path == "/test/world" && url == "http://localhost:3333/test/world"
    ensures base + path == url
  {
  }

  /**
   The init sent over the wire: the request's own init with its headers
   replaced by the single `Content-type: application/json` entry.
   */
  function OutgoingInit(init: RequestInit): (sent: RequestInit)
    ensures sent.httpMethod == init.httpMethod && sent.body == init.body
    ensures sent.headers == [Header("Content-type", "application/json")]
  {
    init.(headers := [Header("Content-type", "application/json")])
  }

  /** What reading the body of a response as JSON gave. */
  datatype BodyRead<J> = Parsed(json: J) | Unreadable(error: string)

  /**
   What the transport did with one request: it answered with a status, its
   text and a body, or it threw.
   */
  datatype TransportOutcome<J> = Responded(status: int, statusText: string, body: BodyRead<J>) | Threw(error: string)

  /** `GenericResponse = Ok | Failure` */
  datatype GenericResponse<J> = Ok(body: J) | Failure(code: int, explanation: string)

  /** `response.ok`: an ok status of the Fetch standard is one in the range 200 to 299, the 2xx class. */
  function IsOkStatus(status: int): (ok: bool)
    ensures ok <==> status / 100 == 2
  {
    200 <= status <= 299
  }

  /**
   The adapter's `try`/`catch` as a function of what the transport did: an ok
   response whose body parses is `Ok`; any other response is a `Failure` with
   its status and status text, its body unread; anything thrown is a
   `Failure` with code 500.
   */
  function Classify<J>(outcome: TransportOutcome<J>): (r: GenericResponse<J>)
    ensures r.Ok? <==> outcome.Responded? && IsOkStatus(outcome.status) && outcome.body.Parsed?
    ensures r.Ok? ==> r.body == outcome.body.json
    ensures outcome.Responded? && !IsOkStatus(outcome.status) ==> r == Failure(outcome.status, outcome.statusText)
    ensures outcome.Responded? && IsOkStatus(outcome.status) && outcome.body.Unreadable? ==>
      r == Failure(500, outcome.body.error)
    ensures outcome.Threw? ==> r == Failure(500, outcome.error)
  {
    match outcome
    case Threw(error) => Failure(500, error)
    case Responded(status, statusText, body) =>
      if IsOkStatus(status) then
        match body
        case Parsed(json) => Ok(json)
        case Unreadable(error) => Failure(500, error)
      else
        Failure(status, statusText)
  }

  /**
   A `Failure` never carries an ok status: its code is 500 or the status of a
   response that was not ok.
   */
  lemma FailureCodeIsNotOk<J>(outcome: TransportOutcome<J>)
    ensures Classify(outcome).Failure? ==> !IsOkStatus(Classify(outcome).code)
    ensures Classify(outcome).Failure? && Classify(outcome).code != 500 ==>
      outcome.Responded? && Classify(outcome).code == outcome.status
  {
  }

  /** The body of a response that is not ok is never consulted. */
  lemma NonOkIgnoresBody<J>(status: int, statusText: string, b1: BodyRead<J>, b2: BodyRead<J>)
    requires !IsOkStatus(status)
    ensures Classify(Responded(status, statusText, b1)) == Classify(Responded(status, statusText, b2))
  {
  }

  /**
   `createFetchAdapter(config)` applied to one request: the transport is
   called on the base URL followed by the request's URL with the outgoing
   init, and its outcome is classified.
   */
  function FetchAdapter<J>(config: FetchAdapterConfig, transport: (string, RequestInit) -> TransportOutcome<J>, request: GenericRequest): (r: GenericResponse<J>)
    ensures r.Failure? ==> !IsOkStatus(r.code)
  {
    Classify(transport(BaseUrl(config) + request.url, OutgoingInit(request.requestInit)))
  }

  /**
   The caller's headers make no difference to what the adapter sends or
   returns: requests that differ only in their headers get the same response.
   */
  lemma AdapterIgnoresCallerHeaders<J>(config: FetchAdapterConfig, transport: (string, RequestInit) -> TransportOutcome<J>, r1: GenericRequest, r2: GenericRequest)
    requires r1.url == r2.url
    requires r1.requestInit.httpMethod == r2.requestInit.httpMethod && r1.requestInit.body == r2.requestInit.body
    ensures FetchAdapter(config, transport, r1) == FetchAdapter(config, transport, r2)
  {
    assert OutgoingInit(r1.requestInit) == OutgoingInit(r2.requestInit);
  }

  // ---------------------------------------------------------------------------
  // Decode-or-fail and the request codec
  // ---------------------------------------------------------------------------

  /** fp-ts `Either`: what a decoder returns. */
  datatype Either<+L, +R> = Left(left: L) | Right(right: R)

  /** How an awaited call ends: with a value, or with an error and its message. */
  datatype Outcome<+T> = Resolved(value: T) | Rejected(message: string)

  /**
   `decodeOrThrow`: a decoded value is returned as it is; decoding errors
   become an error whose message is the reporter's lines joined by newlines.
   */
  function DecodeOrThrow<J, E, T>(decoder: J -> Either<E, T>, report: E -> seq<string>, value: J): (r: Outcome<T>)
    ensures r.Resolved? <==> decoder(value).Right?
    ensures r.Resolved? ==> r.value == decoder(value).right
    ensures r.Rejected? ==> r.message == Join(report(decoder(value).left), "\n")
  {
    match decoder(value)
    case Left(errors) => Rejected(Join(report(errors), "\n"))
    case Right(parsedObject) => Resolved(parsedObject)
  }

  /**
   Aggregation of validation errors: when the reporter gives `k` lines, none
   holding a newline, the message has exactly those `k` lines.
   */
  lemma ValidationMessageLines<J, E, T>(decoder: J -> Either<E, T>, report: E -> seq<string>, value: J)
    requires decoder(value).Left?
    requires |report(decoder(value).left)| > 0
    requires forall k :: 0 <= k < |report(decoder(value).left)| ==> '\n' !in report(decoder(value).left)[k]
    ensures DecodeOrThrow(decoder, report, value).Rejected?
    ensures Split(DecodeOrThrow(decoder, report, value).message, '\n') == report(decoder(value).left)
  {
    SplitJoin(report(decoder(value).left), '\n');
  }

  const FailurePrefix := "Failed to execute request "

  /**
   The message the codec throws for a `Failure`:
   `Failed to execute request <code>, <explanation>`. It determines both the
   code and the explanation it was made from, which can be read back out.
   */
  function FailureMessage(code: int, explanation: string): (message: string)
    ensures ParseFailureMessage(message) == Some((code, explanation))
  {
    FailureTextParses(code, explanation);
    FailurePrefix + NumberToString(code) + ", " + explanation
  }

  /** Reads the code and the explanation back out of a failure message. */
  function ParseFailureMessage(message: string): Option<(int, string)> {
    if !OccursAt(message, FailurePrefix, 0) then None
    else
      var rest := message[|FailurePrefix|..];
      match IndexOf(rest, ",")
      case None => None
      case Some(k) =>
        if k + 1 < |rest| && rest[k + 1] == ' ' then
          match ParseInt(rest[..k])
          case None => None
          case Some(code) => Some((code, rest[k + 2..]))
        else None
  }

  lemma FailureTextParses(code: int, explanation: string)
    ensures ParseFailureMessage(FailurePrefix + NumberToString(code) + ", " + explanation) == Some((code, explanation))
  {
    var digits := NumberToString(code);
    var m := FailurePrefix + NumberToString(code) + ", " + explanation;
    var rest := digits + ", " + explanation;
    assert m == FailurePrefix + rest;
    assert m[..|FailurePrefix|] == FailurePrefix && m[|FailurePrefix|..] == rest;
    OccurrenceStartsWith(rest, ",");
    forall j: nat | j < |digits| ensures !OccursAt(rest, ",", j) {
      assert rest[j] == digits[j];
    }
    assert rest[|digits|..|digits| + 1] == ",";
    IndexOfLeast(rest, ",", |digits|);
    assert rest[..|digits|] == digits && rest[|digits| + 1] == ' ' && rest[|digits| + 2..] == explanation;
    NumberToStringRoundTrip(code);
  }

  /**
   `requestCodecFactory(adapter)<Body>()(method, pathTemplate, resDecoder)`:
   the codec closes over the adapter, the method, the template and the
   decoder; `serialize` and `report` stand for `JSON.stringify` and the
   io-ts reporter.
   */
  datatype RequestCodec<!B, !J, !E, T> = RequestCodec(
    adapter: GenericRequest -> Outcome<GenericResponse<J>>,
    serialize: B -> string,
    report: E -> seq<string>,
    httpMethod: Method,
    pathTemplate: string,
    resDecoder: J -> Either<E, T>)
  {
    /**
     One call of the codec: build the request, await the adapter (whose
     rejection passes through), fail on a `Failure`, and decode the body of
     an `Ok`.
     */
    function Call(urlParams: seq<Entry>, body: B): (r: Outcome<T>)
      ensures r.Resolved? ==>
        && adapter(Request(urlParams, body)).Resolved?
        && adapter(Request(urlParams, body)).value.Ok?
        && resDecoder(adapter(Request(urlParams, body)).value.body) == Right(r.value)
      ensures adapter(Request(urlParams, body)).Rejected? ==>
        r == Rejected(adapter(Request(urlParams, body)).message)
      ensures adapter(Request(urlParams, body)).Resolved? && adapter(Request(urlParams, body)).value.Failure? ==>
        r.Rejected?
    {
      match adapter(Request(urlParams, body))
      case Rejected(message) => Rejected(message)
      case Resolved(Failure(code, explanation)) => Rejected(FailureMessage(code, explanation))
      case Resolved(Ok(json)) => DecodeOrThrow(resDecoder, report, json)
    }

    /** The request one call sends to the adapter: the template filled, the codec's method, the body serialized. */
    function Request(urlParams: seq<Entry>, body: B): (r: GenericRequest)
      ensures r.url == Interpolate(pathTemplate, urlParams)
      ensures r.requestInit == RequestInit([Header("Content-Type", "application/json")], serialize(body), httpMethod)
    {
      CreateRequest(serialize, httpMethod, pathTemplate, urlParams, body)
    }
  }

  /**
   A `Failure` from the adapter rejects the call with a message carrying its
   code and explanation, whatever the decoder is: the decoder is never used.
   */
  lemma FailureShortCircuits<B, J, E, T>(codec: RequestCodec<B, J, E, T>, urlParams: seq<Entry>, body: B, otherDecoder: J -> Either<E, T>)
    requires codec.adapter(codec.Request(urlParams, body)).Resolved?
    requires codec.adapter(codec.Request(urlParams, body)).value.Failure?
    ensures var failure := codec.adapter(codec.Request(urlParams, body)).value;
      var outcome := codec.Call(urlParams, body);
      && outcome == Rejected(FailureMessage(failure.code, failure.explanation))
      && ParseFailureMessage(outcome.message) == Some((failure.code, failure.explanation))
      && codec.(resDecoder := otherDecoder).Call(urlParams, body) == outcome
  {
  }

  /**
   On `Ok` the call ends as decode-or-fail ends on the body: with exactly the
   decoder's value, or rejected with the reporter's lines.
   */
  lemma OkIsDecoded<B, J, E, T>(codec: RequestCodec<B, J, E, T>, urlParams: seq<Entry>, body: B)
    requires codec.adapter(codec.Request(urlParams, body)).Resolved?
    requires codec.adapter(codec.Request(urlParams, body)).value.Ok?
    ensures var json := codec.adapter(codec.Request(urlParams, body)).value.body;
      var outcome := codec.Call(urlParams, body);
      && (codec.resDecoder(json).Right? ==> outcome == Resolved(codec.resDecoder(json).right))
      && (codec.resDecoder(json).Left? ==> outcome == Rejected(Join(codec.report(codec.resDecoder(json).left), "\n")))
  {
  }

  /**
   The integration test: a codec over the fetch adapter for `localhost:3333`,
   `POST /test/:hello` with `hello` bound to `world`, sends the body to
   `http://localhost:3333/test/world` with the JSON content type; when that
   answers with an ok status and a body the decoder accepts, the call
   resolves to the decoded value.
   */
  lemma IntegrationScenario<B, J, E, T>(transport: (string, RequestInit) -> TransportOutcome<J>, serialize: B -> string, report: E -> seq<string>, decoder: J -> Either<E, T>, body: B, json: J, decoded: T)
    requires var answer := transport("http://localhost:3333/test/world", RequestInit([Header("Content-type", "application/json")], serialize(body), POST));
      answer.Responded? && IsOkStatus(answer.status) && answer.body == Parsed(json)
    requires decoder(json) == Right(decoded)
    ensures var config := FetchAdapterConfig(None, "localhost", Some(3333));
      var codec := RequestCodec(req => Resolved(FetchAdapter(config, transport, req)), serialize, report, POST, "/test/:hello", decoder);
      codec.Call([Entry("hello", Str("world"))], body) == Resolved(decoded)
  {
    LocalhostTestUrl(serialize, transport, body);
  }

  /**
   A `404 Not Found` answer rejects the call with
   `Failed to execute request 404, Not Found`.
   */
  lemma NotFoundScenario<B, J, E, T>(codec: RequestCodec<B, J, E, T>, urlParams: seq<Entry>, body: B)
    requires codec.adapter(codec.Request(urlParams, body)) == Resolved(Failure(404, "Not Found"))
    ensures codec.Call(urlParams, body) == Rejected("Failed to execute request 404, Not Found")
  {
    NotFoundMessage(404, "Not Found", "Failed to execute request 404, Not Found");
  }

  // The strings come in as parameters fixed by `requires` rather than as
  // literals, which keeps the solver from unfolding functions on the literals.
  lemma NotFoundMessage(code: int, explanation: string, message: string)
    requires code == 404 && explanation == "Not Found"
    requires message == "Failed to execute request 404, Not Found"
    ensures FailureMessage(code, explanation) == message
  {
    assert NatToDecimal(4) == "4";
    assert NatToDecimal(40) == "40";
    assert NatToDecimal(404) == "404";
  }
}
