/**
 What printing any template with any arguments gives, accepted by the compile-time check or not.
 */
module Printing {
  import opened Core
  import opened FormatSpecs
  import opened Template

  /** Characters that are no brace, doubled braces, and fields up to their closing brace. */
  predicate IsPiece(piece: Piece) {
    match piece
    case Literal(c) => c != '{' && c != '}'
    case Doubled(c) => c == '{' || c == '}'
    case Field(None) => true
    case Field(Some(spec)) => '}' !in spec
  }

  predicate ArePieces(pieces: seq<Piece>) { forall i :: 0 <= i < |pieces| ==> IsPiece(pieces[i]) }

  /** The text of the next argument under the specification of its field. */
  predicate Gives(piece: Piece, argument: Argument, text: string)
    requires piece.Field?
  {
    var spec := SpecOf(Split(if piece.spec.Some? then piece.spec.value else ""));
    spec.Ok? && argument(spec.value) == Ok(text)
  }

  /** Pieces printed: a character as it is, a doubled brace once, and each field as its argument's text. */
  predicate Print(pieces: seq<Piece>, arguments: seq<Argument>, counted: bool, out: string)
    decreases |pieces|
  {
    if pieces == [] then out == "" && (counted ==> arguments == [])
    else match pieces[0]
      case Literal(c) => out != "" && out[0] == c && Print(pieces[1..], arguments, counted, out[1..])
      case Doubled(c) => out != "" && out[0] == c && Print(pieces[1..], arguments, counted, out[1..])
      case Field(_) =>
        arguments != [] && exists n :: 0 <= n <= |out| && PrintField(pieces, arguments, counted, out, n)
  }

  predicate PrintField(pieces: seq<Piece>, arguments: seq<Argument>, counted: bool, out: string, n: nat)
    requires pieces != [] && pieces[0].Field? && arguments != [] && n <= |out|
    decreases |pieces|, 0
  {
    Gives(pieces[0], arguments[0], out[..n]) && Print(pieces[1..], arguments[1..], counted, out[n..])
  }

  /** How a field in front of a text is read. */
  lemma FieldIsRead(piece: Piece, rest: string)
    requires piece.Field? && IsPiece(piece)
    ensures var text := SpellPiece(piece) + rest;
            var end := IndexOf(text, '}');
            && |text| > 1 && text[0] == '{' && text[1] != '{' && end < |text| && text[end + 1..] == rest
            && text[1..end] == (if piece.spec.None? then "" else ":" + piece.spec.value)
  {
    var field := if piece.spec.None? then "" else ":" + piece.spec.value;
    var text := SpellPiece(piece) + rest;
    assert text == "{" + field + ['}'] + rest;
    IndexBehind("{" + field, '}', rest);
    assert text[1..|field| + 1] == field && text[|field| + 2..] == rest;
  }

  lemma FieldGives(piece: Piece, arguments: seq<Argument>, counted: bool, text: string)
    requires piece.Field? && arguments != []
    ensures FieldText(if piece.spec.None? then "" else ":" + piece.spec.value, arguments, counted) == Ok(text)
       <==> Gives(piece, arguments[0], text)
  {
    hide Split, SpecOf;
    FieldTextOf(piece, arguments, counted);
  }

  lemma FieldPrints(piece: Piece, more: string, arguments: seq<Argument>, counted: bool, first: string, out: string)
    requires piece.Field? && IsPiece(piece) && arguments != [] && Gives(piece, arguments[0], first)
    requires Rendering(more, arguments[1..], counted) == Ok(out)
    ensures Rendering(SpellPiece(piece) + more, arguments, counted) == Ok(first + out)
  {
    hide FieldText, Gives, IndexOf, SpellPiece;
    FieldIsRead(piece, more);
    FieldGives(piece, arguments, counted, first);
  }

  lemma CharacterPrints(piece: Piece, more: string, arguments: seq<Argument>, counted: bool, out: string)
    requires !piece.Field? && IsPiece(piece) && Rendering(more, arguments, counted) == Ok(out)
    ensures Rendering(SpellPiece(piece) + more, arguments, counted) == Ok([piece.c] + out)
  {
    hide FieldText, IndexOf;
    assert (SpellPiece(piece) + more)[|SpellPiece(piece)|..] == more;
  }

  /** What the first piece prints, and what is printed behind it. */
  lemma FirstPiece(pieces: seq<Piece>, arguments: seq<Argument>, counted: bool, out: string) returns (n: nat)
    requires pieces != [] && Print(pieces, arguments, counted, out)
    ensures n <= |out|
    ensures if pieces[0].Field? then
              && arguments != [] && Gives(pieces[0], arguments[0], out[..n])
              && Print(pieces[1..], arguments[1..], counted, out[n..])
            else n == 1 && out[0] == pieces[0].c && Print(pieces[1..], arguments, counted, out[1..])
  {
    hide Gives;
    if pieces[0].Field? {
      n :| 0 <= n <= |out| && PrintField(pieces, arguments, counted, out, n);
    } else {
      n := 1;
    }
  }

  lemma NothingPrints(arguments: seq<Argument>, counted: bool, out: string)
    requires Print([], arguments, counted, out)
    ensures Rendering("", arguments, counted) == Ok(out)
  {
  }

  /** Printed pieces are what the walker makes of their text. */
  lemma {:induction false} PiecesPrint(pieces: seq<Piece>, arguments: seq<Argument>, counted: bool, out: string)
    requires ArePieces(pieces) && Print(pieces, arguments, counted, out)
    ensures Rendering(SpellAll(pieces), arguments, counted) == Ok(out)
    decreases |pieces|
  {
    hide Gives, SpellPiece, IsPiece, Print, Rendering;
    if pieces == [] {
      NothingPrints(arguments, counted, out);
    } else {
      var piece, more := pieces[0], SpellAll(pieces[1..]);
      var n := FirstPiece(pieces, arguments, counted, out);
      assert out[..n] + out[n..] == out;
      if piece.Field? {
        PiecesPrint(pieces[1..], arguments[1..], counted, out[n..]);
        FieldPrints(piece, more, arguments, counted, out[..n], out[n..]);
      } else {
        PiecesPrint(pieces[1..], arguments, counted, out[1..]);
        CharacterPrints(piece, more, arguments, counted, out[1..]);
        assert [piece.c] + out[1..] == out;
      }
    }
  }

  /** Whatever the walker prints comes from pieces. */
  lemma {:induction false} PrintedIsPieces(text: string, arguments: seq<Argument>, counted: bool, out: string)
    returns (pieces: seq<Piece>)
    requires Rendering(text, arguments, counted) == Ok(out)
    ensures ArePieces(pieces) && SpellAll(pieces) == text && Print(pieces, arguments, counted, out)
    decreases |text|
  {
    hide FieldText, Gives, IndexOf;
    if text == "" {
      return [];
    }
    var rest;
    if !IsBrace(text[0]) {
      rest := PrintedIsPieces(text[1..], arguments, counted, out[1..]);
      pieces := [Literal(text[0])] + rest;
      assert text == [text[0]] + text[1..];
      assert pieces[1..] == rest;
    } else if |text| > 1 && text[1] == text[0] {
      rest := PrintedIsPieces(text[2..], arguments, counted, out[1..]);
      pieces := [Doubled(text[0])] + rest;
      assert text == [text[0], text[0]] + text[2..];
      assert pieces[1..] == rest;
    } else {
      var end, n := FieldWasPrinted(text, arguments, counted, out);
      hide Rendering;
      var piece := FieldWasRead(text, end, arguments, counted, out[..n]);
      rest := PrintedIsPieces(text[end + 1..], arguments[1..], counted, out[n..]);
      pieces := [piece] + rest;
      assert pieces[1..] == rest;
      assert PrintField(pieces, arguments, counted, out, n);
    }
  }

  lemma FieldWasPrinted(text: string, arguments: seq<Argument>, counted: bool, out: string) returns (end: nat, n: nat)
    requires Rendering(text, arguments, counted) == Ok(out)
    requires text != "" && IsBrace(text[0]) && !(|text| > 1 && text[1] == text[0])
    ensures text[0] == '{' && 0 < end == IndexOf(text, '}') < |text| && n <= |out| && arguments != []
    ensures FieldText(text[1..end], arguments, counted) == Ok(out[..n])
    ensures Rendering(text[end + 1..], arguments[1..], counted) == Ok(out[n..])
  {
    hide FieldText, IndexOf;
    end := IndexOf(text, '}');
    NoArgumentLeft(text[1..end], arguments, counted);
    n := |FieldText(text[1..end], arguments, counted).value|;
  }

  lemma FieldWasRead(text: string, end: nat, arguments: seq<Argument>, counted: bool, first: string)
    returns (piece: Piece)
    requires text != "" && text[0] == '{' && end == IndexOf(text, '}') < |text|
    requires FieldText(text[1..end], arguments, counted) == Ok(first)
    ensures piece.Field? && IsPiece(piece) && text == SpellPiece(piece) + text[end + 1..]
    ensures arguments != [] && Gives(piece, arguments[0], first)
  {
    hide Split, SpecOf, Gives;
    var field := text[1..end];
    if field == "" {
      piece := Field(None);
      assert text == "{}" + text[2..];
    } else {
      piece := Field(Some(field[1..]));
      assert field == ":" + field[1..];
      assert text == "{" + field + "}" + text[end + 1..];
      assert SpellPiece(piece) == "{" + field + "}";
    }
    FieldGives(piece, arguments, counted, first);
  }

  /**
   Main result: for every template and every arguments the walker succeeds exactly when the template consists
   of pieces that the arguments fill, all of them in the counted form, and prints just these.
   */
  lemma PrintsExactlyPieces(text: string, arguments: seq<Argument>, counted: bool, out: string)
    ensures Rendering(text, arguments, counted) == Ok(out) <==>
      exists pieces :: ArePieces(pieces) && SpellAll(pieces) == text && Print(pieces, arguments, counted, out)
  {
    hide Rendering, ArePieces, SpellAll, Print;
    if Rendering(text, arguments, counted) == Ok(out) {
      var pieces := PrintedIsPieces(text, arguments, counted, out);
    }
    if pieces :| ArePieces(pieces) && SpellAll(pieces) == text && Print(pieces, arguments, counted, out) {
      PiecesPrint(pieces, arguments, counted, out);
    }
  }

  /** Printing fails for its template, for a number too great, or for an argument, with the argument's error. */
  ghost predicate IsFault(code: ErrorCode, arguments: seq<Argument>) {
    || code == InvalidFormat || code == Overflow
    || exists j, spec :: 0 <= j < |arguments| && arguments[j](spec) == Err(code)
  }

  lemma FieldFaults(field: string, arguments: seq<Argument>, counted: bool)
    ensures FieldText(field, arguments, counted).Err? ==>
      IsFault(FieldText(field, arguments, counted).code, arguments)
  {
    hide Split;
  }

  lemma {:induction false} FaultsAreNamed(text: string, arguments: seq<Argument>, counted: bool)
    ensures Rendering(text, arguments, counted).Err? ==> IsFault(Rendering(text, arguments, counted).code, arguments)
    decreases |text|
  {
    hide FieldText, IndexOf, IsFault;
    TemplateFault(arguments);
    if text == "" {
    } else if !IsBrace(text[0]) {
      FaultsAreNamed(text[1..], arguments, counted);
    } else if |text| > 1 && text[1] == text[0] {
      FaultsAreNamed(text[2..], arguments, counted);
    } else if text[0] == '{' && IndexOf(text, '}') < |text| {
      var end := IndexOf(text, '}');
      FieldFaults(text[1..end], arguments, counted);
      NoArgumentLeft(text[1..end], arguments, counted);
      if arguments != [] {
        FaultsAreNamed(text[end + 1..], arguments[1..], counted);
        LaterFaults(arguments);
      }
    }
  }

  lemma TemplateFault(arguments: seq<Argument>)
    ensures IsFault(InvalidFormat, arguments)
  {
  }

  lemma LaterFaults(arguments: seq<Argument>)
    requires arguments != []
    ensures forall code :: IsFault(code, arguments[1..]) ==> IsFault(code, arguments)
  {
    forall code | IsFault(code, arguments[1..]) ensures IsFault(code, arguments) {
      if code != InvalidFormat && code != Overflow {
        var j, spec :| 0 <= j < |arguments[1..]| && arguments[1..][j](spec) == Err(code);
        assert arguments[j + 1](spec) == Err(code);
      }
    }
  }
}
