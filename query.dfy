/**
  The query part of a route (`QuerySegment` of the router macro): the text after `?` in a
  `#[route("...")]` attribute, parsed against the fields of the route's variant.

  A query is either `:..name`, one field that receives the whole query string, or a list
  `:a&:b&...` of named arguments. Identifiers are strings and the field types are an opaque
  type parameter `Ty`; the macro's token output is modelled by the order of what it writes.
*/
module RouterQuery {
  import opened Wrappers

  type Ident = string

  // ---------------------------------------------------------------------------------------------
  // Data

  /** `FullQuerySegment`: the field that receives the whole query string. */
  datatype FullQuerySegment<Ty> = FullQuerySegment(ident: Ident, ty: Ty)

  /** `QueryArgument`: one `name=value` pair of the query. */
  datatype QueryArgument<Ty> = QueryArgument(ident: Ident, ty: Ty)

  /** `QuerySegment`. */
  datatype QuerySegment<Ty> = Single(segment: FullQuerySegment<Ty>) | Segments(arguments: seq<QueryArgument<Ty>>)

  /**
    Why a query is refused: a `syn::Error` carrying its message, or the panic of `Ident::new`
    on a name that is not an identifier.
  */
  datatype ParseError = Error(message: string) | InvalidIdent(name: string)

  const EmptySegmentMessage := "Query segments should be non-empty"
  const NoColonMessage := "Query segments should be a : followed by the name of the query argument"

  function NotFoundMessage(name: Ident): string {
    "Could not find a field with the name '" + name + "'"
  }

  // ---------------------------------------------------------------------------------------------
  // Identifiers (ASCII)

  predicate IsIdentStart(c: char) {
    c == '_' || 'a' <= c <= 'z' || 'A' <= c <= 'Z'
  }

  predicate IsIdentContinue(c: char) {
    IsIdentStart(c) || '0' <= c <= '9'
  }

  /** The names `Ident::new` accepts: not empty, not a number, a letter or `_` then letters, digits, `_`. */
  predicate IsIdent(s: string) {
    |s| > 0 && IsIdentStart(s[0]) && forall i :: 1 <= i < |s| ==> IsIdentContinue(s[i])
  }

  lemma IdentHasNoAmpersand(s: string)
    requires IsIdent(s)
    ensures '&' !in s
  {
    forall i | 0 <= i < |s|
      ensures s[i] != '&'
    {
      if i > 0 {
        assert IsIdentContinue(s[i]);
      }
    }
  }

  // ---------------------------------------------------------------------------------------------
  // `str::split` and its inverse

  function IndexOfChar(s: string, c: char): (i: nat)
    requires c in s
    ensures i < |s| && s[i] == c && c !in s[..i]
  {
    if s[0] == c then 0 else 1 + IndexOfChar(s[1..], c)
  }

  lemma {:induction false} IndexOfCharAt(s: string, c: char, n: nat)
    requires n < |s| && s[n] == c && c !in s[..n]
    ensures IndexOfChar(s, c) == n
  {
    if n > 0 {
      assert s[0] in s[..n];
      assert s[1..][..n - 1] == s[1..n];
      assert s[1..n] <= s[..n][1..];
      IndexOfCharAt(s[1..], c, n - 1);
    }
  }

  /** `s.split(sep)`: the pieces between separators; `""` gives `[""]`, a trailing separator an empty last piece. */
  function Split(s: string, sep: char): (r: seq<string>)
    ensures |r| >= 1
    ensures forall i :: 0 <= i < |r| ==> sep !in r[i]
    decreases |s|
  {
    if sep in s then
      var i := IndexOfChar(s, sep);
      [s[..i]] + Split(s[i + 1..], sep)
    else
      [s]
  }

  /** The pieces with one `sep` between each two. */
  function Join(parts: seq<string>, sep: char): string
    requires |parts| >= 1
  {
    if |parts| == 1 then parts[0] else parts[0] + [sep] + Join(parts[1..], sep)
  }

  lemma {:induction false} JoinSplit(s: string, sep: char)
    ensures Join(Split(s, sep), sep) == s
    decreases |s|
  {
    if sep in s {
      var i := IndexOfChar(s, sep);
      JoinSplit(s[i + 1..], sep);
      assert Split(s, sep)[1..] == Split(s[i + 1..], sep);
      assert s == s[..i] + [sep] + s[i + 1..];
    }
  }

  lemma {:induction false} SplitJoin(parts: seq<string>, sep: char)
    requires |parts| >= 1 && forall i :: 0 <= i < |parts| ==> sep !in parts[i]
    ensures Split(Join(parts, sep), sep) == parts
  {
    if |parts| > 1 {
      var s := Join(parts, sep);
      SplitJoin(parts[1..], sep);
      assert s == parts[0] + [sep] + Join(parts[1..], sep);
      assert s[|parts[0]|] == sep;
      var i := |parts[0]|;
      assert s[..i] == parts[0];
      IndexOfCharAt(s, sep, i);
      assert s[i + 1..] == Join(parts[1..], sep);
    }
  }

  // ---------------------------------------------------------------------------------------------
  // Field lookup through one shared iterator

  /**
    `fields.find(|(name, _)| name == ident)` on an iterator already advanced to `from`: the first
    matching field at or after `from`. The iterator is left just past it.
  */
  function FindFrom<Ty>(fields: seq<(Ident, Ty)>, from: nat, name: Ident): (r: Option<nat>)
    requires from <= |fields|
    ensures r.Some? ==> from <= r.value < |fields| && fields[r.value].0 == name
    ensures r.Some? ==> forall j :: from <= j < r.value ==> fields[j].0 != name
    ensures r.None? ==> forall j :: from <= j < |fields| ==> fields[j].0 != name
    decreases |fields| - from
  {
    if from == |fields| then None
    else if fields[from].0 == name then Some(from)
    else FindFrom(fields, from + 1, name)
  }

  // ---------------------------------------------------------------------------------------------
  // `parse_from_str`

  /** A `&`-separated segment that parses: `:` followed by an identifier. */
  predicate WellFormed(segment: string) {
    |segment| > 0 && segment[0] == ':' && IsIdent(segment[1..])
  }

  /** `ok` with `args` in front of its arguments, or the same error. */
  function Prepend<Ty>(args: seq<QueryArgument<Ty>>, r: Result<seq<QueryArgument<Ty>>, ParseError>): Result<seq<QueryArgument<Ty>>, ParseError> {
    match r
    case Ok(rest) => Ok(args + rest)
    case Err(e) => Err(e)
  }

  /** The `for segment in query.split('&')` loop, as a recursion over the segments left, with the iterator at `pos`. */
  function ParseSegments<Ty>(fields: seq<(Ident, Ty)>, pos: nat, segments: seq<string>): Result<seq<QueryArgument<Ty>>, ParseError>
    requires pos <= |fields|
    decreases |segments|
  {
    if segments == [] then Ok([])
    else if segments[0] == [] then Err(Error(EmptySegmentMessage))
    else if segments[0][0] != ':' then Err(Error(NoColonMessage))
    else
      var name := segments[0][1..];
      if !IsIdent(name) then Err(InvalidIdent(name))
      else match FindFrom(fields, pos, name)
        case None => Err(Error(NotFoundMessage(name)))
        case Some(j) => Prepend([QueryArgument(name, fields[j].1)], ParseSegments(fields, j + 1, segments[1..]))
  }

  predicate HasCatchAllPrefix(query: string) {
    |query| >= 3 && query[..3] == ":.."
  }

  /** What `parse_from_str` returns. */
  function ParseQuery<Ty>(fields: seq<(Ident, Ty)>, query: string): Result<QuerySegment<Ty>, ParseError> {
    if HasCatchAllPrefix(query) then
      var name := query[3..];
      if !IsIdent(name) then Err(InvalidIdent(name))
      else match FindFrom(fields, 0, name)
        case None => Err(Error(NotFoundMessage(name)))
        case Some(j) => Ok(Single(FullQuerySegment(name, fields[j].1)))
    else
      match ParseSegments(fields, 0, Split(query, '&'))
      case Ok(args) => Ok(Segments(args))
      case Err(e) => Err(e)
  }

  /**
    `QuerySegment::parse_from_str`: `fields` is the variant's fields in declaration order, read
    through one iterator that every lookup advances.
  */
  method ParseFromStr<Ty>(fields: seq<(Ident, Ty)>, query: string) returns (r: Result<QuerySegment<Ty>, ParseError>)
    ensures r == ParseQuery(fields, query)
  {
    if HasCatchAllPrefix(query) {
      var name := query[3..];
      if !IsIdent(name) {
        return Err(InvalidIdent(name));
      }
      var field := FindFrom(fields, 0, name);
      if field.None? {
        return Err(Error(NotFoundMessage(name)));
      }
      return Ok(Single(FullQuerySegment(name, fields[field.value].1)));
    }
    var segments := Split(query, '&');
    var arguments: seq<QueryArgument<Ty>> := [];
    var pos: nat := 0;
    var k := 0;
    assert segments[0..] == segments;
    assert ParseSegments(fields, 0, segments).Ok? ==> arguments + ParseSegments(fields, 0, segments).value == ParseSegments(fields, 0, segments).value;
    while k < |segments|
      invariant 0 <= k <= |segments| && pos <= |fields|
      invariant ParseSegments(fields, 0, segments) == Prepend(arguments, ParseSegments(fields, pos, segments[k..]))
    {
      var segment := segments[k];
      assert segments[k..][1..] == segments[k + 1..];
      if segment == [] {
        return Err(Error(EmptySegmentMessage));
      }
      if segment[0] != ':' {
        return Err(Error(NoColonMessage));
      }
      var name := segment[1..];
      if !IsIdent(name) {
        return Err(InvalidIdent(name));
      }
      var field := FindFrom(fields, pos, name);
      if field.None? {
        return Err(Error(NotFoundMessage(name)));
      }
      PrependTwice(arguments, [QueryArgument(name, fields[field.value].1)], ParseSegments(fields, field.value + 1, segments[k + 1..]));
      arguments := arguments + [QueryArgument(name, fields[field.value].1)];
      pos := field.value + 1;
      k := k + 1;
    }
    assert segments[k..] == [];
    assert arguments + [] == arguments;
    return Ok(Segments(arguments));
  }

  lemma PrependTwice<Ty>(a: seq<QueryArgument<Ty>>, b: seq<QueryArgument<Ty>>, r: Result<seq<QueryArgument<Ty>>, ParseError>)
    ensures Prepend(a, Prepend(b, r)) == Prepend(a + b, r)
  {
    if r.Ok? {
      assert a + (b + r.value) == (a + b) + r.value;
    }
  }

  // ---------------------------------------------------------------------------------------------
  // Which queries parse

  /** The names the segments give, `:` dropped. */
  function Names(segments: seq<string>): (r: seq<Ident>)
    ensures |r| == |segments| && forall i :: 0 <= i < |r| ==> r[i] == Name(segments[i])
  {
    seq(|segments|, i requires 0 <= i < |segments| => Name(segments[i]))
  }

  function Name(segment: string): Ident {
    if segment == [] then [] else segment[1..]
  }

  /** `idx` picks, at strictly increasing positions from `pos` on, a field named `names[i]` for every `i`. */
  ghost predicate Embedding<Ty>(names: seq<Ident>, fields: seq<(Ident, Ty)>, pos: nat, idx: seq<nat>) {
    && |idx| == |names|
    && (forall i :: 0 <= i < |idx| ==> pos <= idx[i] < |fields| && fields[idx[i]].0 == names[i])
    && (forall i, j :: 0 <= i < j < |idx| ==> idx[i] < idx[j])
  }

  /** The names occur, in order, among the names of the fields from `pos` on. */
  ghost predicate InOrder<Ty>(names: seq<Ident>, fields: seq<(Ident, Ty)>, pos: nat) {
    exists idx :: Embedding(names, fields, pos, idx)
  }

  /**
    The segments parse exactly when each is `:` and an identifier and their names are found, in
    order, among the fields: the one iterator only moves forward.
  */
  lemma {:induction false} ParseSegmentsOk<Ty>(fields: seq<(Ident, Ty)>, pos: nat, segments: seq<string>)
    requires pos <= |fields|
    ensures ParseSegments(fields, pos, segments).Ok? <==>
      (forall i :: 0 <= i < |segments| ==> WellFormed(segments[i])) && InOrder(Names(segments), fields, pos)
  {
    if (forall i :: 0 <= i < |segments| ==> WellFormed(segments[i])) && InOrder(Names(segments), fields, pos) {
      var idx :| Embedding(Names(segments), fields, pos, idx);
      EmbeddedParses(fields, pos, segments, idx);
    }
    if ParseSegments(fields, pos, segments).Ok? {
      ParsedEmbeds(fields, pos, segments);
    }
  }

  /** A successful parse picks the fields it found: an embedding of the names. */
  lemma {:induction false} ParsedEmbeds<Ty>(fields: seq<(Ident, Ty)>, pos: nat, segments: seq<string>)
    requires pos <= |fields| && ParseSegments(fields, pos, segments).Ok?
    ensures forall i :: 0 <= i < |segments| ==> WellFormed(segments[i])
    ensures InOrder(Names(segments), fields, pos)
    decreases |segments|
  {
    if segments == [] {
      assert Embedding([], fields, pos, []);
    } else {
      assert WellFormed(segments[0]);
      var name := segments[0][1..];
      assert FindFrom(fields, pos, name).Some?;
      var j := FindFrom(fields, pos, name).value;
      var rest := segments[1..];
      assert ParseSegments(fields, pos, segments) == Prepend([QueryArgument(name, fields[j].1)], ParseSegments(fields, j + 1, rest));
      ParsedEmbeds(fields, j + 1, rest);
      var idx :| Embedding(Names(rest), fields, j + 1, idx);
      assert Names(segments) == [name] + Names(rest);
      EmbeddingCons(name, Names(rest), fields, pos, j, idx);
      forall i | 0 <= i < |segments|
        ensures WellFormed(segments[i])
      {
        if i > 0 {
          assert segments[i] == rest[i - 1];
        }
      }
    }
  }

  /** Well-formed segments whose names embed in order parse: the greedy lookup never misses. */
  lemma {:induction false} EmbeddedParses<Ty>(fields: seq<(Ident, Ty)>, pos: nat, segments: seq<string>, idx: seq<nat>)
    requires pos <= |fields|
    requires forall i :: 0 <= i < |segments| ==> WellFormed(segments[i])
    requires Embedding(Names(segments), fields, pos, idx)
    ensures ParseSegments(fields, pos, segments).Ok?
    decreases |segments|
  {
    if segments != [] {
      var name := segments[0][1..];
      assert WellFormed(segments[0]);
      assert Names(segments)[0] == name;
      assert pos <= idx[0] < |fields| && fields[idx[0]].0 == name;
      assert FindFrom(fields, pos, name).Some?;
      var j := FindFrom(fields, pos, name).value;
      var rest := segments[1..];
      EmbeddingTail(Names(segments), fields, pos, idx, j);
      assert Names(segments)[1..] == Names(rest);
      forall i | 0 <= i < |rest|
        ensures WellFormed(rest[i])
      {
        assert rest[i] == segments[i + 1];
      }
      EmbeddedParses(fields, j + 1, rest, idx[1..]);
    }
  }

  lemma EmbeddingCons<Ty>(name: Ident, names: seq<Ident>, fields: seq<(Ident, Ty)>, pos: nat, j: nat, idx: seq<nat>)
    requires pos <= j < |fields| && fields[j].0 == name && Embedding(names, fields, j + 1, idx)
    ensures Embedding([name] + names, fields, pos, [j] + idx)
  {
  }

  /** Once the first name is found at `j`, no later than the embedding's first pick, the rest embeds after `j`. */
  lemma EmbeddingTail<Ty>(names: seq<Ident>, fields: seq<(Ident, Ty)>, pos: nat, idx: seq<nat>, j: nat)
    requires Embedding(names, fields, pos, idx) && |names| > 0
    requires pos <= j < |fields| && (forall m :: pos <= m < j ==> fields[m].0 != names[0])
    ensures Embedding(names[1..], fields, j + 1, idx[1..])
  {
    assert idx[0] >= j;
    forall i | 0 <= i < |idx[1..]|
      ensures j + 1 <= idx[1..][i]
    {
      assert idx[0] < idx[i + 1];
    }
  }

  /** On success, one argument per segment, in segment order, named after the segment, typed by a field of that name. */
  lemma {:induction false} ParseSegmentsShape<Ty>(fields: seq<(Ident, Ty)>, pos: nat, segments: seq<string>)
    requires pos <= |fields| && ParseSegments(fields, pos, segments).Ok?
    ensures var args := ParseSegments(fields, pos, segments).value;
      && |args| == |segments|
      && (forall i :: 0 <= i < |args| ==> |segments[i]| > 0 && args[i].ident == segments[i][1..])
      && (forall i :: 0 <= i < |args| ==> exists j :: pos <= j < |fields| && fields[j] == (args[i].ident, args[i].ty))
    decreases |segments|
  {
    if segments != [] {
      var name := segments[0][1..];
      var j := FindFrom(fields, pos, name).value;
      ParseSegmentsShape(fields, j + 1, segments[1..]);
      var args := ParseSegments(fields, pos, segments).value;
      assert args == [QueryArgument(name, fields[j].1)] + ParseSegments(fields, j + 1, segments[1..]).value;
      assert fields[j] == (args[0].ident, args[0].ty);
    }
  }

  /** The names of the fields are distinct, as the fields of one variant are. */
  predicate DistinctNames<Ty>(fields: seq<(Ident, Ty)>) {
    forall i, j :: 0 <= i < j < |fields| ==> fields[i].0 != fields[j].0
  }

  /**
    With distinct field names, a query that names a field twice, or names a field after one
    declared later, does not parse.
  */
  lemma OrderRequired<Ty>(fields: seq<(Ident, Ty)>, segments: seq<string>, a: nat, b: nat, fa: nat, fb: nat)
    requires DistinctNames(fields) && a < b < |segments|
    requires forall i :: 0 <= i < |segments| ==> |segments[i]| > 0
    requires fa < |fields| && fields[fa].0 == segments[a][1..]
    requires fb < |fields| && fields[fb].0 == segments[b][1..]
    requires fb <= fa
    ensures !ParseSegments(fields, 0, segments).Ok?
    ensures (forall i :: 0 <= i < |segments| ==> WellFormed(segments[i])) ==>
      exists i :: 0 <= i < |segments| && ParseSegments(fields, 0, segments) == Err(Error(NotFoundMessage(Name(segments[i]))))
  {
    ParseSegmentsOk(fields, 0, segments);
    if forall i :: 0 <= i < |segments| ==> WellFormed(segments[i]) {
      WellFormedFailsNotFound(fields, 0, segments);
    }
  }

  /**
    When every segment is `:` and an identifier, the only way the loop can fail is `find` running
    off the end of the shared iterator: the error names one of the segments.
  */
  lemma {:induction false} WellFormedFailsNotFound<Ty>(fields: seq<(Ident, Ty)>, pos: nat, segments: seq<string>)
    requires pos <= |fields| && forall i :: 0 <= i < |segments| ==> WellFormed(segments[i])
    ensures ParseSegments(fields, pos, segments).Err? ==>
      exists i :: 0 <= i < |segments| && ParseSegments(fields, pos, segments) == Err(Error(NotFoundMessage(Name(segments[i]))))
    decreases |segments|
  {
    if segments != [] {
      assert WellFormed(segments[0]);
      match FindFrom(fields, pos, segments[0][1..])
      case None =>
        assert ParseSegments(fields, pos, segments) == Err(Error(NotFoundMessage(Name(segments[0]))));
      case Some(j) =>
        var tail := segments[1..];
        assert forall i :: 0 <= i < |tail| ==> WellFormed(tail[i]) by {
          forall i | 0 <= i < |tail| ensures WellFormed(tail[i]) {
            assert tail[i] == segments[i + 1];
          }
        }
        WellFormedFailsNotFound(fields, j + 1, tail);
        if ParseSegments(fields, pos, segments).Err? {
          var k :| 0 <= k < |tail| && ParseSegments(fields, j + 1, tail) == Err(Error(NotFoundMessage(Name(tail[k]))));
          assert tail[k] == segments[k + 1];
        }
    }
  }

  /** `""`, a leading or trailing `&` and `&&` all leave an empty segment, which is refused. */
  lemma EmptySegmentRejected<Ty>(fields: seq<(Ident, Ty)>, query: string)
    requires !HasCatchAllPrefix(query) && "" in Split(query, '&')
    ensures !ParseQuery(fields, query).Ok?
  {
    var segments := Split(query, '&');
    var i :| 0 <= i < |segments| && segments[i] == "";
    ParseSegmentsOk(fields, 0, segments);
    assert !WellFormed(segments[i]);
  }

  /** The empty query is refused with the empty-segment message. */
  lemma EmptyQuery<Ty>(fields: seq<(Ident, Ty)>)
    ensures ParseQuery(fields, "") == Err(Error(EmptySegmentMessage))
  {
    assert Split("", '&') == [""];
  }

  /** The first segment decides the error when it is not `:` and a name. */
  lemma FirstSegmentErrors<Ty>(fields: seq<(Ident, Ty)>, query: string)
    requires !HasCatchAllPrefix(query)
    ensures var s := Split(query, '&')[0];
      && (s == "" ==> ParseQuery(fields, query) == Err(Error(EmptySegmentMessage)))
      && (s != "" && s[0] != ':' ==> ParseQuery(fields, query) == Err(Error(NoColonMessage)))
      && (s != "" && s[0] == ':' && !IsIdent(s[1..]) ==> ParseQuery(fields, query) == Err(InvalidIdent(s[1..])))
  {
  }

  // ---------------------------------------------------------------------------------------------
  // `contains_ident`

  /** `QuerySegment::contains_ident`. */
  predicate ContainsIdent<Ty>(q: QuerySegment<Ty>, x: Ident) {
    match q
    case Single(s) => s.ident == x
    case Segments(args) => exists i :: 0 <= i < |args| && args[i].ident == x
  }

  /** The names a query string gives its arguments. */
  function QueryNames(query: string): (r: set<Ident>) {
    if HasCatchAllPrefix(query) then {query[3..]}
    else set s | s in Split(query, '&') && |s| > 0 :: s[1..]
  }

  /** For a parsed query, `contains_ident(x)` holds exactly when the query string names `x`. */
  lemma ContainsIdentIff<Ty>(fields: seq<(Ident, Ty)>, query: string, x: Ident)
    requires ParseQuery(fields, query).Ok?
    ensures ContainsIdent(ParseQuery(fields, query).value, x) <==> x in QueryNames(query)
  {
    if !HasCatchAllPrefix(query) {
      var segments := Split(query, '&');
      ParseSegmentsShape(fields, 0, segments);
      var args := ParseSegments(fields, 0, segments).value;
      if x in QueryNames(query) {
        var s :| s in segments && |s| > 0 && s[1..] == x;
        var i :| 0 <= i < |segments| && segments[i] == s;
        assert args[i].ident == x;
      }
      if ContainsIdent(ParseQuery(fields, query).value, x) {
        var i :| 0 <= i < |args| && args[i].ident == x;
        assert segments[i] in segments;
      }
    }
  }

  // ---------------------------------------------------------------------------------------------
  // Layout of `write`

  /** What the generated `Display` code writes, piece by piece. */
  datatype Piece<Ty> = Question | Ampersand | WholeQuery(segment: FullQuerySegment<Ty>) | Argument(argument: QueryArgument<Ty>)

  /**
    `QuerySegment::write`: for a list of arguments, `?`, then the first argument, then `&` and
    the next argument for every further one.
  */
  method Write<Ty>(q: QuerySegment<Ty>) returns (pieces: seq<Piece<Ty>>)
    ensures q.Single? ==> pieces == [WholeQuery(q.segment)]
    ensures q.Segments? ==> |pieces| == (if q.arguments == [] then 1 else 2 * |q.arguments|)
    ensures q.Segments? ==> pieces[0] == Question
    ensures q.Segments? ==> forall i :: 0 <= i < |q.arguments| ==> pieces[2 * i + 1] == Argument(q.arguments[i])
    ensures q.Segments? ==> forall i :: 1 <= i < |q.arguments| ==> pieces[2 * i] == Ampersand
  {
    if q.Single? {
      return [WholeQuery(q.segment)];
    }
    var args := q.arguments;
    pieces := [Question];
    if args == [] {
      return;
    }
    pieces := pieces + [Argument(args[0])];
    var k := 1;
    while k < |args|
      invariant 1 <= k <= |args| && |pieces| == 2 * k && pieces[0] == Question
      invariant forall i :: 0 <= i < k ==> pieces[2 * i + 1] == Argument(args[i])
      invariant forall i :: 1 <= i < k ==> pieces[2 * i] == Ampersand
    {
      pieces := pieces + [Ampersand, Argument(args[k])];
      k := k + 1;
    }
  }

  /** The text the pieces write, given the (URL-encoded) text of each argument's value. */
  function Render<Ty>(pieces: seq<Piece<Ty>>, value: Ident -> string): string {
    if pieces == [] then ""
    else
      var head := match pieces[0]
        case Question => "?"
        case Ampersand => "&"
        case WholeQuery(s) => "?" + value(s.ident)
        case Argument(a) => a.ident + "=" + value(a.ident);
      head + Render(pieces[1..], value)
  }

  /** The `name=value` text of each argument. */
  function Pairs<Ty>(args: seq<QueryArgument<Ty>>, value: Ident -> string): (r: seq<string>)
    ensures |r| == |args| && forall i :: 0 <= i < |args| ==> r[i] == args[i].ident + "=" + value(args[i].ident)
  {
    seq(|args|, i requires 0 <= i < |args| => args[i].ident + "=" + value(args[i].ident))
  }

  /**
    What `write` lays out reads back: after the `?`, splitting on `&` gives the arguments'
    `name=value` pairs in order, as long as neither names nor encoded values hold an `&`.
  */
  lemma {:induction false} WriteReadsBack<Ty>(args: seq<QueryArgument<Ty>>, pieces: seq<Piece<Ty>>, value: Ident -> string)
    requires |args| > 0 && |pieces| == 2 * |args| && pieces[0] == Question
    requires forall i :: 0 <= i < |args| ==> pieces[2 * i + 1] == Argument(args[i])
    requires forall i :: 1 <= i < |args| ==> pieces[2 * i] == Ampersand
    requires forall i :: 0 <= i < |args| ==> IsIdent(args[i].ident) && '&' !in value(args[i].ident)
    ensures var text := Render(pieces, value);
      |text| > 0 && text[0] == '?' && Split(text[1..], '&') == Pairs(args, value)
  {
    RenderLayout(args, pieces, value);
    var pairs := Pairs(args, value);
    forall i | 0 <= i < |pairs|
      ensures '&' !in pairs[i]
    {
      IdentHasNoAmpersand(args[i].ident);
    }
    SplitJoin(pairs, '&');
  }

  lemma {:induction false} RenderLayout<Ty>(args: seq<QueryArgument<Ty>>, pieces: seq<Piece<Ty>>, value: Ident -> string)
    requires |args| > 0 && |pieces| == 2 * |args| && pieces[0] == Question
    requires forall i :: 0 <= i < |args| ==> pieces[2 * i + 1] == Argument(args[i])
    requires forall i :: 1 <= i < |args| ==> pieces[2 * i] == Ampersand
    ensures Render(pieces, value) == "?" + Join(Pairs(args, value), '&')
  {
    RenderTail(args, pieces[1..], value);
  }

  /** After the leading `?`: the first pair, then `&` and a pair for each further argument. */
  lemma {:induction false} RenderTail<Ty>(args: seq<QueryArgument<Ty>>, tail: seq<Piece<Ty>>, value: Ident -> string)
    requires |args| > 0 && |tail| == 2 * |args| - 1
    requires forall i :: 0 <= i < |args| ==> tail[2 * i] == Argument(args[i])
    requires forall i :: 1 <= i < |args| ==> tail[2 * i - 1] == Ampersand
    ensures Render(tail, value) == Join(Pairs(args, value), '&')
    decreases |args|
  {
    var pairs := Pairs(args, value);
    if |args| == 1 {
      assert tail[1..] == [];
    } else {
      var rest := tail[2..];
      forall i | 0 <= i < |args[1..]|
        ensures rest[2 * i] == Argument(args[1..][i])
      {
        assert tail[2 * (i + 1)] == Argument(args[i + 1]);
      }
      forall i | 1 <= i < |args[1..]|
        ensures rest[2 * i - 1] == Ampersand
      {
        assert tail[2 * (i + 1) - 1] == Ampersand;
      }
      RenderTail(args[1..], rest, value);
      assert Pairs(args[1..], value) == pairs[1..];
      assert tail[1..][1..] == rest;
      assert Render(tail[1..], value) == "&" + Render(rest, value);
    }
  }
}
