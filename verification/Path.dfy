/**
 Paths: splitting, normalising and joining.  A path denotes a walk through directories; normalising
 should name the place the walk ends.
 */
module Path {
  import opened Core

  const SEPARATOR: char := '\\'

  predicate IsBackslash(c: char) { c == '\\' }
  predicate IsSeparator(c: char) { c == '\\' || c == '/' }

  // ------------------------------------------------------------ components

  /** How many characters stand in front of the first separator. */
  function NameLength(text: string, sep: char -> bool): (n: nat)
    ensures n <= |text| && (forall i :: 0 <= i < n ==> !sep(text[i])) && (n < |text| ==> sep(text[n]))
  {
    if text == "" || sep(text[0]) then 0 else 1 + NameLength(text[1..], sep)
  }

  /** The names between separators; repeated, leading and trailing separators count for nothing. */
  function PartsBy(text: string, sep: char -> bool): seq<string>
    decreases |text|
  {
    if text == "" then []
    else if sep(text[0]) then PartsBy(text[1..], sep)
    else [text[..NameLength(text, sep)]] + PartsBy(text[NameLength(text, sep)..], sep)
  }

  predicate IsName(name: string, sep: char -> bool) { name != "" && forall i :: 0 <= i < |name| ==> !sep(name[i]) }

  lemma {:induction false} PartsAreNames(text: string, sep: char -> bool)
    ensures forall i :: 0 <= i < |PartsBy(text, sep)| ==> IsName(PartsBy(text, sep)[i], sep)
    decreases |text|
  {
    if text != "" {
      if sep(text[0]) {
        PartsAreNames(text[1..], sep);
      } else {
        PartsAreNames(text[NameLength(text, sep)..], sep);
      }
    }
  }

  lemma {:induction false} NameInFront(name: string, rest: string, sep: char -> bool)
    requires (forall i :: 0 <= i < |name| ==> !sep(name[i])) && (rest == "" || sep(rest[0]))
    ensures NameLength(name + rest, sep) == |name|
  {
    if name == "" {
      assert name + rest == rest;
    } else {
      assert (name + rest)[1..] == name[1..] + rest;
      NameInFront(name[1..], rest, sep);
    }
  }

  /** Texts that meet at a separator split separately. */
  lemma {:induction false} PartsMeet(a: string, b: string, sep: char -> bool)
    requires b == "" || sep(b[0])
    ensures PartsBy(a + b, sep) == PartsBy(a, sep) + PartsBy(b, sep)
    decreases |a|
  {
    if a == "" {
      assert a + b == b;
    } else if sep(a[0]) {
      assert (a + b)[1..] == a[1..] + b;
      PartsMeet(a[1..], b, sep);
    } else {
      var n := NameLength(a, sep);
      assert a + b == a[..n] + (a[n..] + b);
      NameInFront(a[..n], a[n..] + b, sep);
      assert (a + b)[..n] == a[..n] && (a + b)[n..] == a[n..] + b;
      PartsMeet(a[n..], b, sep);
    }
  }

  lemma PartsBehindSeparator(b: string, sep: char -> bool)
    requires sep(SEPARATOR)
    ensures PartsBy([SEPARATOR] + b, sep) == PartsBy(b, sep)
  {
    assert ([SEPARATOR] + b)[1..] == b;
  }

  // ------------------------------------------------------------ what a path denotes

  /** A place: so many levels above the start, and the names from there.  From the root nothing is above. */
  datatype Location = Location(ups: nat, names: seq<string>)

  const HERE := Location(0, [])

  function Step(at: Location, part: string, absolute: bool): Location {
    if part == "." then at
    else if part == ".." then
      if at.names != [] then at.(names := at.names[..|at.names| - 1])
      else if absolute then at else at.(ups := at.ups + 1)
    else at.(names := at.names + [part])
  }

  /** Walking along the parts. */
  function Walk(at: Location, parts: seq<string>, absolute: bool): Location {
    if parts == [] then at else Step(Walk(at, parts[..|parts| - 1], absolute), parts[|parts| - 1], absolute)
  }

  predicate IsAbsolute(text: string) { text != "" && text[0] == '\\' }

  function PlaceOf(text: string): Location { Walk(HERE, PartsBy(text, IsSeparator), IsAbsolute(text)) }

  lemma WalkOne(at: Location, parts: seq<string>, part: string, absolute: bool)
    ensures Walk(at, parts + [part], absolute) == Step(Walk(at, parts, absolute), part, absolute)
  {
    assert (parts + [part])[..|parts|] == parts;
  }

  lemma {:induction false} WalkFurther(at: Location, first: seq<string>, second: seq<string>, absolute: bool)
    ensures Walk(at, first + second, absolute) == Walk(Walk(at, first, absolute), second, absolute)
    decreases |second|
  {
    if second == [] {
      assert first + second == first;
    } else {
      var front, last := second[..|second| - 1], second[|second| - 1];
      WalkFurther(at, first, front, absolute);
      assert first + second == first + front + [last];
      WalkOne(at, first + front, last, absolute);
    }
  }

  // ------------------------------------------------------------ the normal form

  /** The parts that name a place from outside. */
  function Names(place: Location): seq<string> { Fill("..", place.ups) + place.names }

  function Joined(parts: seq<string>): string {
    if parts == [] then "" else if |parts| == 1 then parts[0] else parts[0] + [SEPARATOR] + Joined(parts[1..])
  }

  function Rendered(parts: seq<string>, absolute: bool): string {
    (if absolute then [SEPARATOR] else "") + Joined(parts)
  }

  /** One turn of the component stack: a `..` takes away whatever is on top, be it a name or a `..` kept before. */
  function Push(stack: seq<string>, part: string, absolute: bool): seq<string> {
    if part == "." then stack
    else if part == ".." then
      if stack != [] then stack[..|stack| - 1] else if absolute then stack else [part]
    else stack + [part]
  }

  /** What the stack holds of a place: its names, under at most one `..`. */
  function Kept(place: Location): seq<string> { Names(place.(ups := place.ups % 2)) }

  lemma PushKeeps(place: Location, part: string, absolute: bool)
    requires absolute ==> place.ups == 0
    ensures Push(Kept(place), part, absolute) == Kept(Step(place, part, absolute))
  {
    var after := Step(place, part, absolute);
    if part == ".." && place.names == [] && !absolute {
      assert after.ups % 2 == 1 - place.ups % 2;
    }
  }

  lemma {:induction false} RootHasNothingAbove(at: Location, parts: seq<string>)
    requires at.ups == 0
    ensures Walk(at, parts, true).ups == 0
  {
    if parts != [] {
      RootHasNothingAbove(at, parts[..|parts| - 1]);
    }
  }

  function NormalOf(text: string): string { Rendered(Kept(PlaceOf(text)), IsAbsolute(text)) }

  // ------------------------------------------------------------ the programs

  method SkipSeparators(text: string, start: nat, sep: char -> bool) returns (index: nat)
    requires start <= |text|
    ensures start <= index <= |text| && (index < |text| ==> !sep(text[index]))
    ensures PartsBy(text[start..], sep) == PartsBy(text[index..], sep)
  {
    index := start;
    while index < |text| && sep(text[index])
      invariant start <= index <= |text| && PartsBy(text[start..], sep) == PartsBy(text[index..], sep)
    {
      assert text[index..][1..] == text[index + 1..];
      index := index + 1;
    }
  }

  method NameEnd(text: string, start: nat, sep: char -> bool) returns (end: nat)
    requires start < |text| && !sep(text[start])
    ensures start < end <= |text|
    ensures PartsBy(text[start..], sep) == [text[start..end]] + PartsBy(text[end..], sep)
  {
    hide NameLength;
    end := start;
    while end < |text| && !sep(text[end])
      invariant start <= end <= |text|
      invariant NameLength(text[start..], sep) == end - start + NameLength(text[end..], sep)
    {
      OneCharacter(text, end, sep);
      end := end + 1;
    }
    OneCharacter(text, end, sep);
    OneCharacter(text, start, sep);
    assert text[start..][..end - start] == text[start..end] && text[start..][end - start..] == text[end..];
  }

  lemma OneCharacter(text: string, index: nat, sep: char -> bool)
    requires index <= |text|
    ensures if index < |text| && !sep(text[index])
            then text[index..] != "" && !sep(text[index..][0])
              && NameLength(text[index..], sep) == 1 + NameLength(text[index + 1..], sep)
            else NameLength(text[index..], sep) == 0
  {
    if index < |text| {
      assert text[index..][1..] == text[index + 1..];
    }
  }

  method Components(text: string) returns (components: seq<string>)
    ensures components == PartsBy(text, IsBackslash)
  {
    hide PartsBy;
    components := [];
    var start: nat := 0;
    assert text[0..] == text;
    while start < |text|
      invariant start <= |text| && PartsBy(text, IsBackslash) == components + PartsBy(text[start..], IsBackslash)
      decreases |text| - start
    {
      var begin := SkipSeparators(text, start, IsBackslash);
      start := begin;
      if start >= |text| {
        break;
      }
      var end := NameEnd(text, start, IsBackslash);
      assert components + ([text[start..end]] + PartsBy(text[end..], IsBackslash))
          == components + [text[start..end]] + PartsBy(text[end..], IsBackslash);
      components := components + [text[start..end]];
      start := end;
    }
    assert PartsBy(text[start..], IsBackslash) == [] by { assert text[start..] == ""; NoParts(); }
  }

  lemma NoParts()
    ensures PartsBy("", IsBackslash) == [] && PartsBy("", IsSeparator) == []
  {
  }

  /** The component stack after all parts. */
  method Resolve(text: string, absolute: bool) returns (components: seq<string>)
    requires absolute == IsAbsolute(text)
    ensures components == Kept(PlaceOf(text))
  {
    hide PartsBy, Walk, Step, Kept;
    components := [];
    ghost var parts: seq<string> := [];
    var start: nat := 0;
    assert text[0..] == text;
    StartHere(absolute);
    while start < |text|
      invariant start <= |text| && PartsBy(text, IsSeparator) == parts + PartsBy(text[start..], IsSeparator)
      invariant components == Kept(Walk(HERE, parts, absolute))
      decreases |text| - start
    {
      start := SkipSeparators(text, start, IsSeparator);
      if start >= |text| {
        break;
      }
      var end := NameEnd(text, start, IsSeparator);
      var part := text[start..end];
      assert parts + ([part] + PartsBy(text[end..], IsSeparator)) == parts + [part] + PartsBy(text[end..], IsSeparator);
      WalkOne(HERE, parts, part, absolute);
      if absolute {
        RootHasNothingAbove(HERE, parts);
      }
      PushKeeps(Walk(HERE, parts, absolute), part, absolute);
      if part == "." {
      } else if part == ".." {
        if components != [] {
          components := components[..|components| - 1];
        } else if !absolute {
          components := components + [part];
        }
      } else {
        components := components + [part];
      }
      parts := parts + [part];
      start := end;
    }
    assert PartsBy(text[start..], IsSeparator) == [] by { assert text[start..] == ""; NoParts(); }
    assert parts + [] == parts;
  }

  lemma StartHere(absolute: bool)
    ensures Kept(Walk(HERE, [], absolute)) == []
  {
  }

  method Normalized(text: string) returns (result: string)
    ensures result == NormalOf(text)
  {
    hide PlaceOf, Kept, Joined;
    result := "";
    var absolute := IsAbsolute(text);
    if absolute {
      result := result + [SEPARATOR];
    }
    var components := Resolve(text, absolute);
    KeptAreNames(text);
    var front := result;
    JoinedEnds(components);
    for i := 0 to |components|
      invariant result == front + Joined(components[..i])
      invariant result == "" <==> !absolute && i == 0
      invariant result != "" ==> (result[|result| - 1] == SEPARATOR <==> i == 0)
    {
      JoinedOne(components[..i], components[i]);
      assert components[..i + 1] == components[..i] + [components[i]];
      if result != "" && result[|result| - 1] != SEPARATOR {
        result := result + [SEPARATOR];
      }
      result := result + components[i];
    }
    assert components[..|components|] == components;
    if result == "" && absolute {
      result := result + [SEPARATOR];
    }
  }

  lemma JoinedEnds(parts: seq<string>)
    ensures Joined(parts[..0]) == ""
  {
  }

  lemma {:induction false} JoinedOne(parts: seq<string>, last: string)
    ensures Joined(parts + [last]) == Joined(parts) + (if parts == [] then "" else [SEPARATOR]) + last
  {
    if parts == [] {
      assert parts + [last] == [last];
    } else {
      JoinedOne(parts[1..], last);
      assert (parts + [last])[1..] == parts[1..] + [last];
      if |parts| == 1 {
        assert parts[1..] == [];
      }
    }
  }

  predicate IsPlainName(name: string) { IsName(name, IsSeparator) && name != "." && name != ".." }

  /** A walk along names ends at plain names. */
  lemma {:induction false} WalkEndsAtNames(at: Location, parts: seq<string>, absolute: bool)
    requires forall i :: 0 <= i < |parts| ==> IsName(parts[i], IsSeparator)
    requires forall i :: 0 <= i < |at.names| ==> IsPlainName(at.names[i])
    ensures forall i :: 0 <= i < |Walk(at, parts, absolute).names| ==> IsPlainName(Walk(at, parts, absolute).names[i])
  {
    hide IsName;
    if parts != [] {
      WalkEndsAtNames(at, parts[..|parts| - 1], absolute);
    }
  }

  lemma KeptAreNames(text: string)
    ensures forall i :: 0 <= i < |PlaceOf(text).names| ==> IsPlainName(PlaceOf(text).names[i])
    ensures forall i :: 0 <= i < |Kept(PlaceOf(text))| ==> IsName(Kept(PlaceOf(text))[i], IsSeparator)
    ensures forall i :: 0 <= i < |Kept(PlaceOf(text))| ==>
      var part := Kept(PlaceOf(text))[i]; part != "" && part != "." && part[|part| - 1] != SEPARATOR
  {
    hide PartsBy, Walk;
    PartsAreNames(text, IsSeparator);
    WalkEndsAtNames(HERE, PartsBy(text, IsSeparator), IsAbsolute(text));
  }

  /** `Join`: an empty side gives the other one as it is, otherwise the glued text is normalised. */
  function Glued(left: string, right: string): string
    requires left != ""
  {
    if left[|left| - 1] == SEPARATOR then left + right else left + [SEPARATOR] + right
  }

  function JoinOf(left: string, right: string): string {
    if left == "" then right else if right == "" then left else NormalOf(Glued(left, right))
  }

  method Join(left: string, right: string) returns (result: string)
    ensures result == JoinOf(left, right)
  {
    if |left| == 0 {
      return right;
    }
    if |right| == 0 {
      return left;
    }
    result := left;
    if result[|result| - 1] != SEPARATOR {
      result := result + [SEPARATOR];
    }
    result := result + right;
    result := Normalized(result);
  }

  // ------------------------------------------------------------ laws

  lemma {:induction false} PartsOfJoined(parts: seq<string>, sep: char -> bool)
    requires sep(SEPARATOR) && forall i :: 0 <= i < |parts| ==> IsName(parts[i], sep)
    ensures PartsBy(Joined(parts), sep) == parts
    ensures parts != [] ==> Joined(parts) != "" && !sep(Joined(parts)[0])
  {
    if |parts| == 1 {
      NameInFront(parts[0], "", sep);
      assert parts[0] + "" == parts[0] && PartsBy("", sep) == [];
      assert parts[0][|parts[0]|..] == "";
    } else if |parts| > 1 {
      PartsOfJoined(parts[1..], sep);
      var rest := [SEPARATOR] + Joined(parts[1..]);
      assert Joined(parts) == parts[0] + rest;
      NameInFront(parts[0], rest, sep);
      assert (parts[0] + rest)[|parts[0]|..] == rest && (parts[0] + rest)[..|parts[0]|] == parts[0];
      PartsBehindSeparator(Joined(parts[1..]), sep);
    }
  }

  lemma PartsOfRendered(parts: seq<string>, absolute: bool, sep: char -> bool)
    requires sep(SEPARATOR) && forall i :: 0 <= i < |parts| ==> IsName(parts[i], sep)
    ensures PartsBy(Rendered(parts, absolute), sep) == parts
    ensures sep == IsSeparator ==> IsAbsolute(Rendered(parts, absolute)) == absolute
  {
    hide Joined;
    PartsOfJoined(parts, sep);
    if absolute {
      PartsBehindSeparator(Joined(parts), sep);
    } else {
      assert "" + Joined(parts) == Joined(parts);
      JoinedEnds(parts);
      assert parts == [] ==> parts[..0] == parts;
    }
  }

  lemma {:induction false} WalkUp(n: nat)
    ensures Walk(HERE, Fill("..", n), false) == Location(n, [])
  {
    if n > 0 {
      WalkUp(n - 1);
      assert Fill("..", n) == Fill("..", n - 1) + [".."];
      WalkOne(HERE, Fill("..", n - 1), "..", false);
    }
  }

  lemma {:induction false} WalkDown(at: Location, names: seq<string>, absolute: bool)
    requires at.names == [] && forall i :: 0 <= i < |names| ==> IsPlainName(names[i])
    ensures Walk(at, names, absolute) == Location(at.ups, names)
  {
    hide IsName;
    if names != [] {
      var front := names[..|names| - 1];
      WalkDown(at, front, absolute);
      assert front + [names[|names| - 1]] == names;
    }
  }

  /** Walking along a place's own names gets there. */
  lemma WalkToNames(n: nat, names: seq<string>, absolute: bool)
    requires absolute ==> n == 0
    requires forall i :: 0 <= i < |names| ==> IsPlainName(names[i])
    ensures Walk(HERE, Fill("..", n) + names, absolute) == Location(n, names)
  {
    hide Walk, IsPlainName;
    if absolute {
      assert Fill("..", 0) + names == names;
      WalkDown(HERE, names, true);
    } else {
      WalkUp(n);
      WalkFurther(HERE, Fill("..", n), names, false);
      WalkDown(Location(n, []), names, false);
    }
  }

  /** The normal form keeps being absolute, is made of the kept names, and denotes the place up to lost levels. */
  lemma NormalFormMeans(text: string)
    ensures IsAbsolute(NormalOf(text)) == IsAbsolute(text)
    ensures PartsBy(NormalOf(text), IsSeparator) == Kept(PlaceOf(text))
    ensures PlaceOf(NormalOf(text)) == PlaceOf(text).(ups := PlaceOf(text).ups % 2)
  {
    hide PartsBy, Rendered, IsName, IsAbsolute, Walk;
    var place, absolute := PlaceOf(text), IsAbsolute(text);
    KeptAreNames(text);
    PartsOfRendered(Kept(place), absolute, IsSeparator);
    if absolute {
      RootHasNothingAbove(HERE, PartsBy(text, IsSeparator));
    }
    WalkToNames(place.ups % 2, place.names, absolute);
  }

  /**
   Main result: normalising keeps the meaning of a path exactly when the path never climbs more than
   one level above its start; an absolute path never does.  A second leading `..` cancels the first.
   */
  lemma NormalisingKeepsThePlace(text: string)
    ensures PlaceOf(NormalOf(text)) == PlaceOf(text) <==> PlaceOf(text).ups <= 1
    ensures IsAbsolute(text) ==> PlaceOf(text).ups == 0
  {
    hide Walk, PartsBy, NormalOf;
    NormalFormMeans(text);
    if IsAbsolute(text) {
      RootHasNothingAbove(HERE, PartsBy(text, IsSeparator));
    }
  }

  /** Main result: normalising twice changes nothing more. */
  lemma NormalisingIsIdempotent(text: string)
    ensures NormalOf(NormalOf(text)) == NormalOf(text)
  {
    hide Rendered, PlaceOf, IsAbsolute, Kept;
    NormalFormMeans(text);
    KeptTwice(PlaceOf(text));
  }

  lemma KeptTwice(place: Location)
    ensures Kept(place.(ups := place.ups % 2)) == Kept(place)
  {
  }

  /**
   The shape of a normal form: its parts joined by single backslashes, none empty or `.`, and `..` only in
   front of a relative path.
   */
  lemma NormalFormShape(text: string)
    ensures var normal := NormalOf(text);
            var parts := PartsBy(normal, IsSeparator);
            && normal == Rendered(parts, IsAbsolute(text))
            && (forall i :: 0 <= i < |parts| ==> IsName(parts[i], IsSeparator) && parts[i] != ".")
            && (forall i :: 0 <= i < |parts| && parts[i] == ".." ==> i == 0 && !IsAbsolute(text))
            && PartsBy(normal, IsBackslash) == parts && '/' !in normal
  {
    hide Rendered, IsName, Walk, PartsBy, IsAbsolute;
    NormalFormMeans(text);
    KeptAreNames(text);
    if IsAbsolute(text) {
      RootHasNothingAbove(HERE, PartsBy(text, IsSeparator));
    }
    var kept := Kept(PlaceOf(text));
    forall i | 0 <= i < |kept| ensures IsName(kept[i], IsBackslash) {
      BackslashNames(kept[i]);
    }
    PartsOfRendered(kept, IsAbsolute(text), IsBackslash);
    NoSlashJoined(kept, IsAbsolute(text));
  }

  lemma BackslashNames(name: string)
    requires IsName(name, IsSeparator)
    ensures IsName(name, IsBackslash) && '/' !in name
  {
  }

  lemma {:induction false} NoSlashJoined(parts: seq<string>, absolute: bool)
    requires forall i :: 0 <= i < |parts| ==> IsName(parts[i], IsSeparator)
    ensures '/' !in Rendered(parts, absolute)
    decreases |parts|
  {
    hide IsName;
    if parts != [] {
      BackslashNames(parts[0]);
      NoSlashJoined(parts[1..], false);
      assert "" + Joined(parts[1..]) == Joined(parts[1..]);
    }
  }

  /** A separator between two texts splits them. */
  lemma SeparatedParts(left: string, right: string)
    ensures PartsBy(left + ([SEPARATOR] + right), IsSeparator)
         == PartsBy(left, IsSeparator) + PartsBy(right, IsSeparator)
    ensures PartsBy(left + [SEPARATOR], IsSeparator) == PartsBy(left, IsSeparator)
  {
    hide PartsBy;
    PartsMeet(left, [SEPARATOR] + right, IsSeparator);
    PartsBehindSeparator(right, IsSeparator);
    PartsMeet(left, [SEPARATOR], IsSeparator);
    PartsBehindSeparator("", IsSeparator);
    assert [SEPARATOR] + "" == [SEPARATOR];
    NoParts();
  }

  lemma GluedParts(left: string, right: string)
    requires left != ""
    ensures PartsBy(Glued(left, right), IsSeparator) == PartsBy(left, IsSeparator) + PartsBy(right, IsSeparator)
    ensures IsAbsolute(Glued(left, right)) == IsAbsolute(left)
  {
    hide PartsBy, IsSeparator;
    if left[|left| - 1] == SEPARATOR {
      var front := left[..|left| - 1];
      assert left == front + [SEPARATOR];
      SeparatedParts(front, right);
      assert left + right == front + ([SEPARATOR] + right);
    } else {
      SeparatedParts(left, right);
      assert left + [SEPARATOR] + right == left + ([SEPARATOR] + right);
    }
  }

  /**
   Main result: joining two non-empty paths is walking the one and then the other, under the same
   condition; from an absolute path it always is.
   */
  lemma JoiningIsWalkingOn(left: string, right: string)
    requires left != "" && right != ""
    ensures var place := Walk(PlaceOf(left), PartsBy(right, IsSeparator), IsAbsolute(left));
            && (PlaceOf(JoinOf(left, right)) == place <==> place.ups <= 1)
            && (IsAbsolute(left) ==> place.ups == 0)
  {
    hide Walk, PartsBy, NormalOf, Glued, IsAbsolute;
    GluedParts(left, right);
    WalkFurther(HERE, PartsBy(left, IsSeparator), PartsBy(right, IsSeparator), IsAbsolute(left));
    NormalisingKeepsThePlace(Glued(left, right));
  }

  lemma ExampleParts()
    ensures PartsBy("..\\..", IsSeparator) == ["..", ".."] && PartsBy("/a", IsSeparator) == ["a"]
  {
    PartsOfJoined(["..", ".."], IsSeparator);
    assert Joined([".."]) == ".." && ["..", ".."][1..] == [".."];
    assert Joined(["..", ".."]) == ".." + [SEPARATOR] + ".." == "..\\..";
    PartsOfJoined(["a"], IsSeparator);
    assert Joined(["a"]) == "a";
    assert "/a"[1..] == "a";
  }

  /** Two levels up become none, and a path that starts with a slash is taken for a relative one. */
  lemma NormalisingLosesLevels()
    ensures PlaceOf("..\\..") == Location(2, []) && NormalOf("..\\..") == ""
    ensures NormalOf("/a") == "a" && !IsAbsolute("/a")
  {
    hide PartsBy;
    ExampleParts();
    assert Walk(HERE, [".."], false) == Location(1, []) && ["..", ".."][..1] == [".."];
    assert Kept(Location(2, [])) == [];
    assert Walk(HERE, ["a"], false) == Location(0, ["a"]);
    assert Kept(Location(0, ["a"])) == ["a"];
  }

  // ------------------------------------------------------------ one more component

  lemma OnePart(part: string)
    requires IsName(part, IsSeparator)
    ensures PartsBy([SEPARATOR] + part, IsSeparator) == [part]
  {
    PartsBehindSeparator(part, IsSeparator);
    NameInFront(part, "", IsSeparator);
    assert part + "" == part && part[..|part|] == part && part[|part|..] == "";
    assert PartsBy(part[|part|..], IsSeparator) == [];
  }

  /** One more component takes one more step. */
  lemma StepFurther(text: string, part: string)
    requires text != "" && IsName(part, IsSeparator)
    ensures PlaceOf(text + ([SEPARATOR] + part)) == Step(PlaceOf(text), part, IsAbsolute(text))
  {
    hide Step, PartsBy;
    OnePart(part);
    PartsMeet(text, [SEPARATOR] + part, IsSeparator);
    WalkOne(HERE, PartsBy(text, IsSeparator), part, IsAbsolute(text));
  }

  /** A name leads one level down, `..` leads up again, and `.` leads nowhere. */
  lemma DownAndUp(text: string, name: string)
    requires text != "" && IsPlainName(name)
    ensures var at, below := PlaceOf(text), PlaceOf(text + ([SEPARATOR] + name));
            below == Location(at.ups, at.names + [name])
    ensures PlaceOf(text + ([SEPARATOR] + name) + ([SEPARATOR] + "..")) == PlaceOf(text)
    ensures PlaceOf(text + ([SEPARATOR] + ".")) == PlaceOf(text)
    ensures PlaceOf(text).names == [] ==>
      PlaceOf(text + ([SEPARATOR] + "..")) == Location(if text[0] == '\\' then 0 else PlaceOf(text).ups + 1, [])
  {
    hide PartsBy, PlaceOf;
    StepFurther(text, name);
    StepFurther(text + ([SEPARATOR] + name), "..");
    StepFurther(text, ".");
    StepFurther(text, "..");
    AboveRoot(text);
  }

  lemma AboveRoot(text: string)
    ensures text != "" && text[0] == '\\' ==> PlaceOf(text).ups == 0
  {
    hide PartsBy;
    if IsAbsolute(text) {
      RootHasNothingAbove(HERE, PartsBy(text, IsSeparator));
    }
  }

  /** The first component is a step from the start, behind either separator. */
  lemma FirstStep(name: string)
    requires IsPlainName(name)
    ensures PlaceOf(name) == PlaceOf("\\" + name) == PlaceOf("/" + name) == Location(0, [name])
    ensures PlaceOf("..") == Location(1, []) && PlaceOf("\\..") == PlaceOf("") == Location(0, [])
  {
    hide PartsBy;
    SinglePart(name);
    SinglePart("..");
    WalkOne(HERE, [], name, false);
    WalkOne(HERE, [], name, true);
    WalkOne(HERE, [], "..", false);
    WalkOne(HERE, [], "..", true);
    assert [] + [name] == [name] && [] + [".."] == [".."] && "\\" + ".." == "\\..";
    assert PartsBy("", IsSeparator) == [] by { NoParts(); }
  }

  lemma SinglePart(part: string)
    requires IsName(part, IsSeparator)
    ensures PartsBy(part, IsSeparator) == [part]
    ensures PartsBy("\\" + part, IsSeparator) == [part] && PartsBy("/" + part, IsSeparator) == [part]
  {
    OnePart(part);
    assert ([SEPARATOR] + part)[1..] == part && ("/" + part)[1..] == part && "\\" == [SEPARATOR];
  }
}
