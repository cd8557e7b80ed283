/**
 What the path parser of src/fs/pparser.c makes of a path string: a drive and a
 list of names, a refusal, or a loop that never ends. Strings are the characters
 before the terminating NUL.
 */
module PathSyntax {
  import opened Options
  import opened Strings

  const MAX_PATH: nat := 108

  datatype Outcome = Rejected | Path(drive: int, names: seq<string>) | Hangs

  predicate IsDigit(c: char) {
    '0' <= c <= '9'
  }

  function DigitValue(c: char): int {
    c as int - '0' as int
  }

  lemma DigitRoundTrip(c: char, d: int)
    ensures IsDigit(c) ==> 0 <= DigitValue(c) <= 9 && DigitChar(DigitValue(c)) == c
    ensures 0 <= d <= 9 ==> IsDigit(DigitChar(d)) && DigitValue(DigitChar(d)) == d
  {
  }

  /** pparser_path_valid_format: a digit, a colon and a slash. */
  predicate ValidFormat(path: string) {
    |path| >= 3 && IsDigit(path[0]) && path[1] == ':' && path[2] == '/'
  }

  /** The length of the name at the front: up to the first slash or the end. */
  function NameLength(rest: string): (n: nat)
    ensures n <= |rest|
    ensures '/' !in rest[..n]
    ensures n < |rest| ==> rest[n] == '/'
  {
    if rest == "" || rest[0] == '/' then 0 else 1 + NameLength(rest[1..])
  }

  /** pparser_get_path_part: the next name and what follows its slash; None leaves the text where it is. */
  function NextPart(rest: string): Option<(string, string)> {
    var n := NameLength(rest);
    if n == 0 then None
    else Some((rest[..n], if n < |rest| then rest[n + 1..] else ""))
  }

  /** The parse loop: names until the text ends; None when a turn makes no progress, so that it never does. */
  function Names(rest: string): Option<seq<string>>
    decreases |rest|
  {
    if rest == "" then Some([])
    else
      match NextPart(rest)
      case None => None
      case Some((name, after)) =>
        match Names(after)
        case None => None
        case Some(names) => Some([name] + names)
  }

  /** How many names the parse loop takes before it ends or stops making progress. */
  function Turns(rest: string): nat
    decreases |rest|
  {
    match NextPart(rest)
    case None => 0
    case Some((name, after)) => 1 + Turns(after)
  }

  /** pparser_parse. With no first name the parse stops at the root, whatever follows. */
  function Parse(path: string): Outcome {
    if |path| > MAX_PATH || !ValidFormat(path) then Rejected
    else
      var drive := DigitValue(path[0]);
      if NextPart(path[3..]) == None then Path(drive, [])
      else
        match Names(path[3..])
        case None => Hangs
        case Some(names) => Path(drive, names)
  }

  /** A path is refused exactly when it has more than 108 characters, or does not begin like "0:/". */
  lemma RejectedIff(path: string)
    ensures Parse(path) == Rejected <==>
      |path| > 108 || |path| < 3 || !(48 <= path[0] as int <= 57) || path[1..3] != ":/"
  {
    if |path| >= 3 {
      assert path[1..3] == [path[1], path[2]];
    }
  }

  /** Any other path gives the digit's drive, and no names exactly when nothing or a further slash follows. */
  lemma DriveAlone(path: string)
    requires Parse(path).Path?
    ensures Parse(path).drive == path[0] as int - 48
    ensures Parse(path).names == [] <==> |path| == 3 || path[3] == '/'
  {
    if NextPart(path[3..]) != None {
      FirstNameIff(path[3..]);
    }
  }

  // ----- When the parse ends

  predicate HasEmptyName(rest: string) {
    exists i | 0 <= i < |rest| - 1 :: rest[i] == '/' && rest[i + 1] == '/'
  }

  lemma NoEarlierSlash(rest: string)
    ensures forall i | 0 <= i < NameLength(rest) :: rest[i] != '/'
  {
    var name := rest[..NameLength(rest)];
    assert forall i | 0 <= i < |name| :: name[i] == rest[i] && name[i] in name;
  }

  /** An empty name follows the first name directly, or comes later. */
  lemma EmptyNameAfter(rest: string, name: string, after: string)
    requires '/' !in name && rest == name + "/" + after
    ensures HasEmptyName(rest) <==> (after != "" && after[0] == '/') || HasEmptyName(after)
  {
    var n := |name|;
    assert forall i | 0 <= i < n :: rest[i] == name[i] && name[i] in name;
    if HasEmptyName(rest) {
      var i :| 0 <= i < |rest| - 1 && rest[i] == '/' && rest[i + 1] == '/';
      assert i == n || (after[i - n - 1] == '/' && after[i - n - 1 + 1] == '/');
    }
    if after != "" && after[0] == '/' {
      assert rest[n] == '/' && rest[n + 1] == '/';
    } else if HasEmptyName(after) {
      var i :| 0 <= i < |after| - 1 && after[i] == '/' && after[i + 1] == '/';
      assert rest[n + 1 + i] == '/' && rest[n + 1 + i + 1] == '/';
    }
  }

  lemma OneNameIsNotEmpty(name: string)
    requires '/' !in name
    ensures !HasEmptyName(name)
  {
    assert forall i | 0 <= i < |name| :: name[i] in name;
  }

  lemma {:induction false} NamesEndIff(rest: string)
    requires rest == "" || rest[0] != '/'
    ensures Names(rest) == None <==> HasEmptyName(rest)
    decreases |rest|
  {
    hide HasEmptyName;
    if rest == "" {
      OneNameIsNotEmpty(rest);
    } else {
      var n := NameLength(rest);
      if n == |rest| {
        assert rest[..n] == rest;
        OneNameIsNotEmpty(rest);
      } else {
        var after := rest[n + 1..];
        EmptyNameAfter(rest, rest[..n], after);
        if after == "" || after[0] != '/' {
          NamesEndIff(after);
        }
      }
    }
  }

  /** The parser never returns exactly for well-formed paths with an empty name after the first. */
  lemma HangsIff(path: string)
    ensures Parse(path) == Hangs <==>
      |path| <= MAX_PATH && ValidFormat(path) && |path| > 3 && path[3] != '/' && HasEmptyName(path[3..])
  {
    if |path| <= MAX_PATH && ValidFormat(path) && |path| > 3 && path[3] != '/' {
      NamesEndIff(path[3..]);
    }
  }

  // ----- Round trip

  predicate IsName(name: string) {
    name != "" && '/' !in name
  }

  function Join(names: seq<string>): string {
    if names == [] then "" else if |names| == 1 then names[0] else names[0] + "/" + Join(names[1..])
  }

  function Print(drive: int, names: seq<string>): string
    requires 0 <= drive <= 9
  {
    [DigitChar(drive)] + ":/" + Join(names)
  }

  lemma {:induction false} NameLengthOf(name: string, after: string)
    requires '/' !in name && (after == "" || after[0] == '/')
    ensures NameLength(name + after) == |name|
  {
    if name != "" {
      assert (name + after)[1..] == name[1..] + after;
      NameLengthOf(name[1..], after);
    } else {
      assert name + after == after;
    }
  }

  lemma {:induction false} NamesOfJoin(names: seq<string>, tail: string)
    requires forall n | n in names :: IsName(n)
    requires tail == "" || (tail == "/" && names != [])
    ensures Names(Join(names) + tail) == Some(names)
  {
    if names == [] {
      assert Join(names) + tail == "";
    } else {
      hide Join;
      hide NextPart;
      NextOfJoin(names, tail);
      if |names| > 1 {
        NamesOfJoin(names[1..], tail);
      }
      assert [names[0]] + names[1..] == names;
    }
  }

  /** The first name of a printed list, and what follows its slash. */
  lemma NextOfJoin(names: seq<string>, tail: string)
    requires names != [] && IsName(names[0]) && (tail == "" || tail == "/")
    ensures NextPart(Join(names) + tail) ==
      Some((names[0], if |names| == 1 then "" else Join(names[1..]) + tail))
    ensures Join(names) + tail != ""
  {
    hide NextPart;
    if |names| == 1 {
      NextOfName(names[0], tail, "");
    } else {
      var next := Join(names[1..]) + tail;
      assert Join(names) + tail == names[0] + ("/" + next);
      hide Join;
      NextOfName(names[0], "/" + next, next);
    }
  }

  lemma NextOfName(name: string, after: string, next: string)
    requires IsName(name) && (after == "/" + next || (after == "" && next == ""))
    ensures NextPart(name + after) == Some((name, next))
  {
    hide NameLength;
    NameLengthOf(name, after);
    assert (name + after)[..|name|] == name;
    AfterSlash(name, after, next);
  }

  lemma AfterSlash(name: string, after: string, next: string)
    requires after == "" || after == "/" + next
    ensures after != "" ==> (name + after)[|name| + 1..] == next
  {
    if after != "" {
      assert name + after == (name + "/") + next;
    }
  }

  /** Parsing a printed path gives back its drive and names; one trailing slash changes nothing. */
  lemma ParsePrint(drive: int, names: seq<string>, tail: string)
    requires 0 <= drive <= 9 && forall n | n in names :: IsName(n)
    requires tail == "" || (tail == "/" && names != [])
    requires |Print(drive, names) + tail| <= MAX_PATH
    ensures Parse(Print(drive, names) + tail) == Path(drive, names)
  {
    hide DigitValue;
    hide DigitChar;
    hide Names;
    hide Join;
    hide NextPart;
    DigitRoundTrip('0', drive);
    var path := Print(drive, names) + tail;
    var rest := Join(names) + tail;
    assert path[3..] == rest;
    NamesOfJoin(names, tail);
    FirstNameIff(rest);
  }

  /** A text that parses has a first name unless it has none at all. */
  lemma FirstNameIff(rest: string)
    requires Names(rest).Some?
    ensures NextPart(rest) == None <==> Names(rest).value == []
  {
  }

  /** One turn of the parse loop, when all of them end. */
  lemma NamesStep(rest: string) returns (name: string, after: string)
    requires Names(rest).Some? && rest != ""
    ensures IsName(name) && Names(after).Some? && Names(rest).value == [name] + Names(after).value
    ensures |after| < |rest| && NextPart(rest) == Some((name, after))
    ensures rest == name + "/" + after || (after == "" && rest == name)
  {
    var n := NameLength(rest);
    name, after := rest[..n], if n < |rest| then rest[n + 1..] else "";
    if n < |rest| {
      assert rest == rest[..n] + [rest[n]] + rest[n + 1..];
    }
  }

  lemma {:induction false} JoinOfNames(rest: string)
    requires Names(rest).Some? && rest != ""
    ensures var names := Names(rest).value;
      && names != [] && (forall n | n in names :: IsName(n) && |n| <= |rest|)
      && (rest == Join(names) || rest == Join(names) + "/")
    decreases |rest|
  {
    var name, after := NamesStep(rest);
    var names := Names(rest).value;
    if after != "" {
      JoinOfNames(after);
      assert names[1..] == Names(after).value;
    } else {
      assert names == [name];
    }
  }

  /** A path that parses to at least one name is that drive and those names printed, give or take a trailing slash. */
  lemma PrintParse(path: string)
    requires Parse(path).Path? && Parse(path).names != []
    ensures var p := Parse(path);
      && 0 <= p.drive <= 9 && (forall n | n in p.names :: IsName(n) && |n| <= MAX_PATH - 3)
      && (path == Print(p.drive, p.names) || path == Print(p.drive, p.names) + "/")
  {
    hide Names;
    hide DigitValue;
    hide DigitChar;
    DigitRoundTrip(path[0], 0);
    JoinOfNames(path[3..]);
    SplitPath(path);
    var start, names := [path[0]] + ":/", Parse(path).names;
    assert path == start + path[3..] && Print(Parse(path).drive, names) == start + Join(names);
    assert start + (Join(names) + "/") == start + Join(names) + "/";
  }

  lemma {:induction false} NamesHaveNoNul(rest: string)
    requires '\0' !in rest && Names(rest).Some?
    ensures forall n | n in Names(rest).value :: '\0' !in n
    decreases |rest|
  {
    if rest != "" {
      var name, after := NamesStep(rest);
      assert rest == name + "/" + after || rest == name;
      NamesHaveNoNul(after);
    }
  }

  lemma SplitPath(path: string)
    requires ValidFormat(path)
    ensures path == [path[0]] + ":/" + path[3..]
  {
    assert path[1..3] == ":/";
  }
}
