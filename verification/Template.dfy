/**
 Format templates: the compile-time checker, the runtime walker, and the pieces both of them read.
 */
module Template {
  import opened Core
  import opened FormatSpecs

  /** An argument formats itself under a spec. */
  type Argument = FormatSpec -> Result<string>

  predicate IsBrace(c: char) { c == '{' || c == '}' }

  /** Where `c` first stands, or the length. */
  function IndexOf(text: string, c: char): (n: nat)
    ensures n <= |text| && (n < |text| ==> text[n] == c) && forall i :: 0 <= i < n ==> text[i] != c
  {
    if text == [] || text[0] == c then 0 else 1 + IndexOf(text[1..], c)
  }

  // ------------------------------------------------------------ the pieces of a template

  datatype Piece = Literal(c: char) | Doubled(c: char) | Field(spec: Option<string>)

  function SpellPiece(piece: Piece): string {
    match piece
    case Literal(c) => [c]
    case Doubled(c) => [c, c]
    case Field(None) => "{}"
    case Field(Some(spec)) => "{:" + spec + "}"
  }

  function SpellAll(pieces: seq<Piece>): string {
    if pieces == [] then "" else SpellPiece(pieces[0]) + SpellAll(pieces[1..])
  }

  /** The specification a field carries. */
  function SpecText(piece: Piece): string
    requires piece.Field?
  {
    match piece.spec case None => "" case Some(spec) => spec
  }

  predicate Good(piece: Piece) {
    match piece
    case Literal(c) => !IsBrace(c)
    case Doubled(c) => IsBrace(c)
    case Field(None) => true
    case Field(Some(spec)) => '{' !in spec && '}' !in spec && Acceptable(Split(spec))
  }

  predicate AllGood(pieces: seq<Piece>) { forall i :: 0 <= i < |pieces| ==> Good(pieces[i]) }

  function Fields(pieces: seq<Piece>): nat {
    if pieces == [] then 0 else (if pieces[0].Field? then 1 else 0) + Fields(pieces[1..])
  }

  function Prepend(text: string, next: Result<string>): Result<string> {
    match next case Err(code) => Err(code) case Ok(rest) => Ok(text + rest)
  }

  /** What printing should give: each piece in order, each field replaced by the next argument. */
  function RenderAll(pieces: seq<Piece>, arguments: seq<Argument>): Result<string>
    requires Fields(pieces) <= |arguments|
  {
    if pieces == [] then Ok("")
    else if pieces[0].Field? then
      match SpecOf(Split(SpecText(pieces[0])))
      case Err(code) => Err(code)
      case Ok(spec) =>
        match arguments[0](spec)
        case Err(code) => Err(code)
        case Ok(text) => Prepend(text, RenderAll(pieces[1..], arguments[1..]))
    else Prepend([pieces[0].c], RenderAll(pieces[1..], arguments))
  }

  // ------------------------------------------------------------ the checker

  predicate FieldAcceptable(field: string) { field == "" || (field[0] == ':' && Acceptable(Split(field[1..]))) }

  function Plus(n: nat, count: Option<nat>): Option<nat> {
    match count case None => None case Some(more) => Some(n + more)
  }

  /** How many fields the checker counts; `None` if it rejects the template. */
  function Check(text: string): Option<nat>
    decreases |text|
  {
    if text == "" then Some(0)
    else if !IsBrace(text[0]) then Check(text[1..])
    else if |text| > 1 && text[1] == text[0] then Check(text[2..])
    else if text[0] == '}' then None
    else
      var end := IndexOf(text, '}');
      if end == |text| || '{' in text[1..end] || !FieldAcceptable(text[1..end]) then None
      else Plus(1, Check(text[end + 1..]))
  }

  /** Scans a field opened at `start`; fails on a nested brace or at the end of the text. */
  method FieldEnd(text: string, start: nat) returns (end: Option<nat>)
    requires start < |text| && text[start] == '{'
    ensures var n := IndexOf(text[start..], '}');
            if n == |text[start..]| || '{' in text[start..][1..n] then end == None else end == Some(start + n)
  {
    ghost var rest := text[start..];
    var index := start + 1;
    while index < |text| && text[index] != '}'
      invariant start < index <= |text|
      invariant forall k :: 0 < k < index - start ==> rest[k] != '{' && rest[k] != '}'
    {
      assert text[index] == rest[index - start];
      if text[index] == '{' {
        FirstStandsLater(rest, index - start);
        return None;
      }
      index := index + 1;
    }
    FirstStandsLater(rest, index - start);
    if index == |text| {
      return None;
    }
    assert rest[index - start] == '}';
    return Some(index);
  }

  lemma FirstStandsLater(text: string, n: nat)
    requires n <= |text| && forall k :: 0 <= k < n ==> text[k] != '}'
    ensures IndexOf(text, '}') >= n
    ensures n < |text| && text[n] == '}' ==> IndexOf(text, '}') == n
    ensures n < |text| && text[n] == '{' && n > 0 ==> '{' in text[1..IndexOf(text, '}')] || IndexOf(text, '}') == |text|
  {
    var end := IndexOf(text, '}');
    if n > 0 && n < |text| && text[n] == '{' && end < |text| {
      assert text[1..end][n - 1] == '{';
    }
  }

  predicate DoubledAt(text: string, index: nat)
    requires index < |text|
  {
    index + 1 < |text| && text[index + 1] == text[index]
  }

  /** One step of the check at `index`. */
  lemma CheckAt(text: string, index: nat)
    requires index < |text|
    ensures !IsBrace(text[index]) ==> Check(text[index..]) == Check(text[index + 1..])
    ensures IsBrace(text[index]) && DoubledAt(text, index) ==> Check(text[index..]) == Check(text[index + 2..])
    ensures text[index] == '}' && !DoubledAt(text, index) ==> Check(text[index..]) == None
    ensures text[index] == '{' && !DoubledAt(text, index) ==>
      var rest := text[index..];
      var end := IndexOf(rest, '}');
      Check(rest) ==
        if end == |rest| || '{' in rest[1..end] || !FieldAcceptable(text[index + 1..index + end]) then None
        else Plus(1, Check(text[index + end + 1..]))
  {
    hide FieldAcceptable;
    var rest := text[index..];
    assert rest[1..] == text[index + 1..];
    if index + 1 < |text| {
      assert rest[1] == text[index + 1] && rest[2..] == text[index + 2..];
    }
    var end := IndexOf(rest, '}');
    if text[index] == '{' && end < |rest| {
      assert rest[1..end] == text[index + 1..index + end] && rest[end + 1..] == text[index + end + 1..];
    }
  }

  /** The compile-time check of a template for `arguments` arguments. */
  method CheckTemplate(text: string, arguments: nat) returns (ok: bool)
    ensures ok <==> Check(text) == Some(arguments)
  {
    hide FieldAcceptable, Check, IndexOf;
    var fields: nat, index: nat := 0, 0;
    assert text[0..] == text;
    while index < |text|
      invariant index <= |text| && Check(text) == Plus(fields, Check(text[index..]))
      decreases |text| - index
    {
      CheckAt(text, index);
      if text[index] == '{' {
        if index + 1 < |text| && text[index + 1] == '{' {
          index := index + 2;
        } else {
          var end := FieldEnd(text, index);
          if end.None? {
            return false;
          }
          var valid := CheckField(text[index + 1..end.value]);
          if !valid {
            return false;
          }
          fields := fields + 1;
          index := end.value + 1;
        }
      } else if text[index] == '}' {
        if index + 1 < |text| && text[index + 1] == '}' {
          index := index + 2;
        } else {
          return false;
        }
      } else {
        index := index + 1;
      }
    }
    CheckNothing();
    assert text[index..] == "";
    return fields == arguments;
  }

  lemma CheckNothing()
    ensures Check("") == Some(0)
  {
  }

  method CheckField(field: string) returns (valid: bool)
    ensures valid == FieldAcceptable(field)
  {
    if |field| != 0 {
      if field[0] != ':' {
        return false;
      }
      valid := ValidateSpec(field[1..]);
      return;
    }
    return true;
  }

  // ------------------------------------------------------------ the walker

  /** What a field's text makes of the next argument. */
  function FieldText(field: string, arguments: seq<Argument>, counted: bool): Result<string> {
    if field != "" && field[0] != ':' then Err(InvalidFormat)
    else if counted && arguments == [] then Err(InvalidFormat)
    else match SpecOf(Split(if field == "" then "" else field[1..]))
      case Err(code) => Err(code)
      case Ok(spec) => if arguments == [] then Err(InvalidFormat) else arguments[0](spec)
  }

  /** What the walker makes of any template; `counted` is the form that checks the number of arguments at run time. */
  function Rendering(text: string, arguments: seq<Argument>, counted: bool): Result<string>
    decreases |text|
  {
    if text == "" then if counted && arguments != [] then Err(InvalidFormat) else Ok("")
    else if !IsBrace(text[0]) then Prepend([text[0]], Rendering(text[1..], arguments, counted))
    else if |text| > 1 && text[1] == text[0] then Prepend([text[0]], Rendering(text[2..], arguments, counted))
    else if text[0] == '}' then Err(InvalidFormat)
    else
      var end := IndexOf(text, '}');
      if end == |text| then Err(InvalidFormat)
      else match FieldText(text[1..end], arguments, counted)
        case Err(code) => Err(code)
        case Ok(formatted) => Prepend(formatted, Rendering(text[end + 1..], arguments[1..], counted))
  }

  lemma RenderingAt(text: string, index: nat, arguments: seq<Argument>, counted: bool)
    requires index < |text|
    ensures !IsBrace(text[index]) ==>
      Rendering(text[index..], arguments, counted)
        == Prepend([text[index]], Rendering(text[index + 1..], arguments, counted))
    ensures IsBrace(text[index]) && DoubledAt(text, index) ==>
      Rendering(text[index..], arguments, counted)
        == Prepend([text[index]], Rendering(text[index + 2..], arguments, counted))
    ensures text[index] == '}' && !DoubledAt(text, index) ==>
      Rendering(text[index..], arguments, counted) == Err(InvalidFormat)
    ensures text[index] == '{' && !DoubledAt(text, index) ==>
      var rest := text[index..];
      var end := IndexOf(rest, '}');
      Rendering(rest, arguments, counted) ==
        if end == |rest| then Err(InvalidFormat)
        else match FieldText(text[index + 1..index + end], arguments, counted)
          case Err(code) => Err(code)
          case Ok(formatted) => Prepend(formatted, Rendering(text[index + end + 1..], arguments[1..], counted))
  {
    hide FieldText;
    var rest := text[index..];
    assert rest[1..] == text[index + 1..];
    if index + 1 < |text| {
      assert rest[1] == text[index + 1] && rest[2..] == text[index + 2..];
    }
    var end := IndexOf(rest, '}');
    if text[index] == '{' && end < |rest| {
      assert rest[1..end] == text[index + 1..index + end] && rest[end + 1..] == text[index + end + 1..];
    }
  }

  lemma PrependTwice(a: string, b: string, next: Result<string>)
    ensures Prepend(a, Prepend(b, next)) == Prepend(a + b, next)
  {
    if next.Ok? {
      assert a + (b + next.value) == a + b + next.value;
    }
  }

  /** Scans to the brace that closes a field. */
  method FindClose(text: string, start: nat) returns (end: nat)
    requires start < |text| && text[start] == '{'
    ensures end == start + IndexOf(text[start..], '}')
  {
    ghost var rest := text[start..];
    end := start;
    while end < |text| && text[end] != '}'
      invariant start <= end <= |text|
      invariant forall k :: 0 <= k < end - start ==> rest[k] != '}'
    {
      assert text[end] == rest[end - start];
      end := end + 1;
    }
    FirstStandsLater(rest, end - start);
    assert end < |text| ==> rest[end - start] == '}';
  }

  method FormatField(field: string, arguments: seq<Argument>, counted: bool) returns (r: Result<string>)
    ensures r == FieldText(field, arguments, counted)
  {
    var specText := field;
    if field != "" && field[0] == ':' {
      specText := field[1..];
    } else if field != "" {
      return Err(InvalidFormat);
    }
    if counted && arguments == [] {
      return Err(InvalidFormat);
    }
    var spec := ParseFormatSpec(specText);
    if spec.Err? {
      return Err(spec.code);
    }
    if arguments == [] {
      return Err(InvalidFormat);
    }
    r := arguments[0](spec.value);
  }

  /**
   The walker: literal text is written in stretches, at the next brace or at the end.  `counted` is the
   form over a list of arguments, which checks at run time that they are used up.
   */
  method Walk(text: string, arguments: seq<Argument>, counted: bool) returns (r: Result<()>, out: string)
    ensures Rendering(text, arguments, counted) == if r.Ok? then Ok(out) else Err(r.code)
  {
    hide Rendering, FieldText, IndexOf;
    out := "";
    var index: nat, literalStart: nat, next: nat := 0, 0, 0;
    ghost var whole := Rendering(text, arguments, counted);
    NothingPrepended(whole);
    assert text[0..] == text && arguments[0..] == arguments && out + text[0..0] == "";
    while index < |text|
      invariant literalStart <= index <= |text| && next <= |arguments|
      invariant whole == Prepend(out + text[literalStart..index], Rendering(text[index..], arguments[next..], counted))
      decreases |text| - index
    {
      RenderingAt(text, index, arguments[next..], counted);
      ghost var pending := out + text[literalStart..index];
      if !IsBrace(text[index]) {
        PrependTwice(pending, [text[index]], Rendering(text[index + 1..], arguments[next..], counted));
        assert pending + [text[index]] == out + text[literalStart..index + 1];
        index := index + 1;
      } else if index + 1 < |text| && text[index + 1] == text[index] {
        PrependTwice(pending, [text[index]], Rendering(text[index + 2..], arguments[next..], counted));
        assert pending + [text[index]] == out + text[literalStart..index + 1];
        out := out + text[literalStart..index + 1];
        index := index + 2;
        literalStart := index;
        assert out + text[index..index] == out;
      } else if text[index] == '}' {
        return Err(InvalidFormat), out;
      } else {
        out := out + text[literalStart..index];
        var end := FindClose(text, index);
        if end == |text| {
          return Err(InvalidFormat), out;
        }
        var formatted := FormatField(text[index + 1..end], arguments[next..], counted);
        if formatted.Err? {
          return Err(formatted.code), out;
        }
        NoArgumentLeft(text[index + 1..end], arguments[next..], counted);
        assert arguments[next..][1..] == arguments[next + 1..];
        PrependTwice(pending, formatted.value, Rendering(text[end + 1..], arguments[next + 1..], counted));
        out := out + formatted.value;
        next := next + 1;
        index := end + 1;
        literalStart := index;
        assert out + text[index..index] == out;
      }
    }
    RenderingAtEnd(text, arguments[next..], counted);
    if counted && next != |arguments| {
      return Err(InvalidFormat), out;
    }
    out := out + text[literalStart..];
    assert text[literalStart..index] == text[literalStart..] && out + "" == out;
    return Ok(()), out;
  }

  lemma NothingPrepended(r: Result<string>)
    ensures Prepend("", r) == r
  {
    if r.Ok? {
      assert "" + r.value == r.value;
    }
  }

  lemma NoArgumentLeft(field: string, arguments: seq<Argument>, counted: bool)
    ensures arguments == [] ==> FieldText(field, arguments, counted).Err?
  {
  }

  lemma RenderingAtEnd(text: string, arguments: seq<Argument>, counted: bool)
    ensures Rendering(text[|text|..], arguments, counted)
         == if counted && arguments != [] then Err(InvalidFormat) else Ok("")
  {
  }

  // ------------------------------------------------------------ what the checker guarantees

  lemma {:induction false} IndexBehind(front: string, c: char, back: string)
    requires c !in front
    ensures IndexOf(front + [c] + back, c) == |front|
  {
    if front == "" {
    } else {
      assert (front + [c] + back)[1..] == front[1..] + [c] + back;
      IndexBehind(front[1..], c, back);
    }
  }

  /** How a field in front of a text is read. */
  lemma FieldInFront(piece: Piece, rest: string)
    requires piece.Field? && Good(piece)
    ensures var text := SpellPiece(piece) + rest;
            var end := IndexOf(text, '}');
            && |text| > 1 && text[0] == '{' && text[1] != '{' && end < |text| && text[end + 1..] == rest
            && '{' !in text[1..end] && FieldAcceptable(text[1..end])
            && text[1..end] == (if piece.spec.None? then "" else ":" + piece.spec.value)
  {
    hide Acceptable, Split;
    var field := if piece.spec.None? then "" else ":" + piece.spec.value;
    var text := SpellPiece(piece) + rest;
    assert text == "{" + field + ['}'] + rest;
    IndexBehind("{" + field, '}', rest);
    assert text[1..|field| + 1] == field && text[|field| + 2..] == rest;
    if piece.spec.Some? {
      assert field[1..] == piece.spec.value;
    }
  }

  /** Every template spelled from good pieces is accepted, with its fields counted. */
  lemma {:induction false} SpelledIsAccepted(pieces: seq<Piece>)
    requires AllGood(pieces)
    ensures Check(SpellAll(pieces)) == Some(Fields(pieces))
  {
    hide FieldAcceptable, IndexOf, Acceptable, Split;
    if pieces != [] {
      var rest := SpellAll(pieces[1..]);
      var text := SpellPiece(pieces[0]) + rest;
      SpelledIsAccepted(pieces[1..]);
      if pieces[0].Field? {
        FieldInFront(pieces[0], rest);
      } else {
        assert text[|SpellPiece(pieces[0])|..] == rest;
      }
    }
  }

  /** Every accepted template is spelled from good pieces. */
  lemma {:induction false} AcceptedIsSpelled(text: string) returns (pieces: seq<Piece>)
    requires Check(text).Some?
    ensures AllGood(pieces) && SpellAll(pieces) == text && Fields(pieces) == Check(text).value
    decreases |text|
  {
    hide Acceptable, Split, IndexOf;
    if text == "" {
      return [];
    }
    var rest;
    if !IsBrace(text[0]) {
      rest := AcceptedIsSpelled(text[1..]);
      pieces := [Literal(text[0])] + rest;
      assert text == [text[0]] + text[1..];
    } else if |text| > 1 && text[1] == text[0] {
      rest := AcceptedIsSpelled(text[2..]);
      pieces := [Doubled(text[0])] + rest;
      assert text == [text[0], text[0]] + text[2..];
    } else {
      var end := IndexOf(text, '}');
      rest := AcceptedIsSpelled(text[end + 1..]);
      var piece := FieldPiece(text, end);
      pieces := [piece] + rest;
    }
    assert pieces[1..] == rest;
  }

  lemma FieldPiece(text: string, end: nat) returns (piece: Piece)
    requires text != "" && text[0] == '{' && end == IndexOf(text, '}') < |text| && end > 0
    requires '{' !in text[1..end] && FieldAcceptable(text[1..end])
    ensures piece.Field? && Good(piece) && text == SpellPiece(piece) + text[end + 1..]
  {
    hide Acceptable, Split;
    var field := text[1..end];
    assert '}' !in field;
    if field == "" {
      piece := Field(None);
      assert text == "{}" + text[2..];
    } else {
      piece := Field(Some(field[1..]));
      assert field == ":" + field[1..];
      assert text == "{" + field + "}" + text[end + 1..];
      assert SpellPiece(piece) == "{" + field + "}";
    }
  }

  /**
   Main result for the compile-time check: it accepts exactly the templates spelled from good pieces with
   as many fields as arguments.
   */
  lemma AcceptsExactlySpelledTemplates(text: string, arguments: nat)
    ensures Check(text) == Some(arguments)
       <==> exists pieces :: AllGood(pieces) && SpellAll(pieces) == text && Fields(pieces) == arguments
  {
    if Check(text) == Some(arguments) {
      var pieces := AcceptedIsSpelled(text);
    }
    if exists pieces :: AllGood(pieces) && SpellAll(pieces) == text && Fields(pieces) == arguments {
      var pieces :| AllGood(pieces) && SpellAll(pieces) == text && Fields(pieces) == arguments;
      SpelledIsAccepted(pieces);
    }
  }

  /** The walker renders an accepted template piece by piece. */
  lemma {:induction false} SpelledRenders(pieces: seq<Piece>, arguments: seq<Argument>, counted: bool)
    requires AllGood(pieces) && Fields(pieces) == |arguments|
    ensures Rendering(SpellAll(pieces), arguments, counted) == RenderAll(pieces, arguments)
    decreases |pieces|
  {
    hide IndexOf, Split, SpecOf, Acceptable;
    if pieces != [] {
      var rest := SpellAll(pieces[1..]);
      var text := SpellPiece(pieces[0]) + rest;
      if pieces[0].Field? {
        FieldInFront(pieces[0], rest);
        FieldTextOf(pieces[0], arguments, counted);
        SpelledRenders(pieces[1..], arguments[1..], counted);
      } else {
        SpelledRenders(pieces[1..], arguments, counted);
        assert text[|SpellPiece(pieces[0])|..] == rest;
      }
    }
  }

  lemma FieldTextOf(piece: Piece, arguments: seq<Argument>, counted: bool)
    requires piece.Field? && arguments != []
    ensures FieldText(if piece.spec.None? then "" else ":" + piece.spec.value, arguments, counted)
         == match SpecOf(Split(SpecText(piece))) case Err(code) => Err(code) case Ok(spec) => arguments[0](spec)
  {
    hide Split, SpecOf;
    if piece.spec.Some? {
      assert (":" + piece.spec.value)[1..] == piece.spec.value;
    }
  }

  /** The pieces with the `k`-th field replaced by the `k`-th text and doubled braces undoubled. */
  function Substituted(pieces: seq<Piece>, texts: seq<string>): string
    requires Fields(pieces) == |texts|
    decreases |pieces|
  {
    if pieces == [] then ""
    else if pieces[0].Field? then texts[0] + Substituted(pieces[1..], texts[1..])
    else [pieces[0].c] + Substituted(pieces[1..], texts)
  }

  /** The arguments format without fault: each under the spec of its field, giving its text. */
  predicate Formats(pieces: seq<Piece>, arguments: seq<Argument>, texts: seq<string>)
    requires Fields(pieces) == |arguments| == |texts|
    decreases |pieces|
  {
    if pieces == [] then true
    else if pieces[0].Field? then
      var spec := SpecOf(Split(SpecText(pieces[0])));
      spec.Ok? && arguments[0](spec.value) == Ok(texts[0]) && Formats(pieces[1..], arguments[1..], texts[1..])
    else Formats(pieces[1..], arguments, texts)
  }

  /**
   Main result: a template the checker accepts for these arguments is walked without any template
   error.  Its output is the pieces in order, braces undoubled and each argument's text once in the
   place of its field.
   */
  lemma {:induction false} AcceptedTemplatesPrint(pieces: seq<Piece>, arguments: seq<Argument>, texts: seq<string>,
                                                  counted: bool)
    requires AllGood(pieces) && Fields(pieces) == |arguments| == |texts|
    requires Formats(pieces, arguments, texts)
    ensures Check(SpellAll(pieces)) == Some(|arguments|)
    ensures Rendering(SpellAll(pieces), arguments, counted) == Ok(Substituted(pieces, texts))
  {
    hide Check, Rendering;
    SpelledIsAccepted(pieces);
    SpelledRenders(pieces, arguments, counted);
    SubstitutionRenders(pieces, arguments, texts);
  }

  lemma {:induction false} SubstitutionRenders(pieces: seq<Piece>, arguments: seq<Argument>, texts: seq<string>)
    requires Fields(pieces) == |arguments| == |texts| && Formats(pieces, arguments, texts)
    ensures RenderAll(pieces, arguments) == Ok(Substituted(pieces, texts))
    decreases |pieces|
  {
    hide Split, SpecOf;
    if pieces != [] {
      if pieces[0].Field? {
        SubstitutionRenders(pieces[1..], arguments[1..], texts[1..]);
      } else {
        SubstitutionRenders(pieces[1..], arguments, texts);
      }
    }
  }

  /** The specifications of the fields, in order. */
  function FieldSpecs(pieces: seq<Piece>): (specs: seq<string>)
    ensures |specs| == Fields(pieces)
  {
    if pieces == [] then []
    else if pieces[0].Field? then [SpecText(pieces[0])] + FieldSpecs(pieces[1..])
    else FieldSpecs(pieces[1..])
  }

  /** What an argument makes of the specification of its field. */
  function Made(spec: string, argument: Argument): Result<string> {
    match SpecOf(Split(spec)) case Err(code) => Err(code) case Ok(parsed) => argument(parsed)
  }

  /** The `k`-th field is the first to fail: its specification overflows, or its argument fails under it. */
  ghost predicate FailsFirstAt(specs: seq<string>, arguments: seq<Argument>, k: nat, code: ErrorCode) {
    && k < |specs| == |arguments|
    && (forall j :: 0 <= j < k ==> Made(specs[j], arguments[j]).Ok?)
    && match SpecOf(Split(specs[k]))
       case Err(specCode) => specCode == Overflow == code
       case Ok(spec) => arguments[k](spec) == Err(code)
  }

  /**
   Main result: rendering an accepted template fails exactly when a field does, with the error of the
   first field that does; the template itself is never at fault.  That error is an overflowing number in
   the field's own specification, or what the field's own argument returns under that specification.
   */
  lemma OnlyOverflowOrArgumentsFail(text: string, arguments: seq<Argument>, counted: bool)
    returns (pieces: seq<Piece>, k: nat)
    requires Check(text) == Some(|arguments|)
    ensures AllGood(pieces) && SpellAll(pieces) == text && Fields(pieces) == |arguments|
    ensures var specs, r := FieldSpecs(pieces), Rendering(text, arguments, counted);
            && (r.Ok? <==> forall j :: 0 <= j < |arguments| ==> Made(specs[j], arguments[j]).Ok?)
            && (r.Err? ==> FailsFirstAt(specs, arguments, k, r.code))
  {
    hide Check, Rendering, Split, SpecOf, Good;
    pieces := AcceptedIsSpelled(text);
    SpelledRenders(pieces, arguments, counted);
    k := FirstFailure(pieces, arguments);
  }

  lemma {:induction false} FirstFailure(pieces: seq<Piece>, arguments: seq<Argument>) returns (k: nat)
    requires AllGood(pieces) && Fields(pieces) == |arguments|
    ensures var specs, r := FieldSpecs(pieces), RenderAll(pieces, arguments);
            && (r.Ok? <==> forall j :: 0 <= j < |arguments| ==> Made(specs[j], arguments[j]).Ok?)
            && (r.Err? ==> FailsFirstAt(specs, arguments, k, r.code))
    decreases |pieces|
  {
    hide Split, SpecOf;
    k := 0;
    if pieces != [] {
      if pieces[0].Field? {
        CheckerAgreesWithRuntime(SpecText(pieces[0]));
        EmptySpecIsFine();
        var specs := FieldSpecs(pieces);
        if Made(specs[0], arguments[0]).Ok? {
          var more := FirstFailure(pieces[1..], arguments[1..]);
          assert specs[1..] == FieldSpecs(pieces[1..]);
          OneFieldFurther(specs, arguments, more);
          k := more + 1;
        }
      } else {
        k := FirstFailure(pieces[1..], arguments);
      }
    }
  }

  /** What is known of the fields behind a field that formats holds of all of them. */
  lemma OneFieldFurther(specs: seq<string>, arguments: seq<Argument>, more: nat)
    requires |specs| == |arguments| > 0 && Made(specs[0], arguments[0]).Ok?
    ensures (forall j :: 0 <= j < |arguments| ==> Made(specs[j], arguments[j]).Ok?)
       <==> forall j :: 0 <= j < |arguments[1..]| ==> Made(specs[1..][j], arguments[1..][j]).Ok?
    ensures forall code :: FailsFirstAt(specs[1..], arguments[1..], more, code)
              ==> FailsFirstAt(specs, arguments, more + 1, code)
  {
    hide Made, Split, SpecOf;
    if forall j :: 0 <= j < |arguments[1..]| ==> Made(specs[1..][j], arguments[1..][j]).Ok? {
      forall j | 0 <= j < |arguments| ensures Made(specs[j], arguments[j]).Ok? {
        if j > 0 {
          assert Made(specs[1..][j - 1], arguments[1..][j - 1]).Ok?;
        }
      }
    }
    forall code | FailsFirstAt(specs[1..], arguments[1..], more, code)
      ensures FailsFirstAt(specs, arguments, more + 1, code)
    {
      forall j | 0 <= j < more + 1 ensures Made(specs[j], arguments[j]).Ok? {
        if j > 0 {
          assert Made(specs[1..][j - 1], arguments[1..][j - 1]).Ok?;
        }
      }
    }
  }

  lemma EmptySpecIsFine()
    ensures Acceptable(Split(""))
  {
  }
}
