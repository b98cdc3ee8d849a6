/** What the parser of Getopt does with single arguments, said in terms of optstring and the
    arguments alone. */
module GetoptRules {
  import opened Getopt

  // ----- Reading optstring -----

  /** The first c in optstring stands at i. */
  ghost predicate FirstAt(optstring: string, c: char, i: int)
  {
    c != ':' && 0 <= i < |optstring| && optstring[i] == c && c !in optstring[..i]
  }

  ghost predicate ColonAt(optstring: string, i: int)
  {
    0 <= i < |optstring| && optstring[i] == ':'
  }

  /** c is listed without a colon behind it. */
  ghost predicate TakesNone(optstring: string, c: char)
  {
    exists i :: FirstAt(optstring, c, i) && !ColonAt(optstring, i + 1)
  }

  /** With one colon. */
  ghost predicate TakesOne(optstring: string, c: char)
  {
    exists i :: FirstAt(optstring, c, i) && ColonAt(optstring, i + 1) && !ColonAt(optstring, i + 2)
  }

  /** With two. */
  ghost predicate MayTakeOne(optstring: string, c: char)
  {
    exists i :: FirstAt(optstring, c, i) && ColonAt(optstring, i + 1) && ColonAt(optstring, i + 2)
  }

  ghost predicate NotListed(optstring: string, c: char)
  {
    c == ':' || c !in optstring
  }

  lemma {:induction false} KindFound(optstring: string, c: char, i: nat, j: nat)
    requires j <= i && FirstAt(optstring, c, i)
    ensures KindFrom(optstring, c, j) ==
      if !ColonAt(optstring, i + 1) then Plain else if ColonAt(optstring, i + 2) then OptionalArg else RequiredArg
    decreases i - j
  {
    if j < i {
      assert optstring[..i][j] == optstring[j];
      KindFound(optstring, c, i, j + 1);
    }
  }

  lemma {:induction false} KindNotFound(optstring: string, c: char, j: nat)
    requires j <= |optstring| && c !in optstring[j..]
    ensures KindFrom(optstring, c, j) == NoOption
    decreases |optstring| - j
  {
    if j < |optstring| {
      assert optstring[j..][0] == optstring[j] && optstring[j..][1..] == optstring[j + 1..];
      KindNotFound(optstring, c, j + 1);
    }
  }

  lemma FirstPosition(optstring: string, c: char) returns (i: int)
    requires c != ':' && c in optstring
    ensures FirstAt(optstring, c, i)
  {
    i := 0;
    while optstring[i] != c
      invariant 0 <= i < |optstring| && c !in optstring[..i] && c in optstring[i..]
      decreases |optstring| - i
    {
      assert optstring[i..] == [optstring[i]] + optstring[i + 1..];
      assert optstring[..i + 1] == optstring[..i] + [optstring[i]];
      i := i + 1;
    }
  }

  lemma FirstUnique(optstring: string, c: char, i: int, j: int)
    requires FirstAt(optstring, c, i) && FirstAt(optstring, c, j)
    ensures i == j
  {
    assert forall k :: 0 <= k < j ==> optstring[..j][k] == optstring[k];
    assert forall k :: 0 <= k < i ==> optstring[..i][k] == optstring[k];
  }

  /** The first occurrence of a character and the colons behind it decide what it is. */
  lemma KindIs(optstring: string, c: char)
    ensures KindOf(optstring, c) == Plain <==> TakesNone(optstring, c)
    ensures KindOf(optstring, c) == RequiredArg <==> TakesOne(optstring, c)
    ensures KindOf(optstring, c) == OptionalArg <==> MayTakeOne(optstring, c)
    ensures KindOf(optstring, c) == NoOption <==> NotListed(optstring, c)
  {
    if NotListed(optstring, c) {
      assert optstring[0..] == optstring;
      if c != ':' {
        KindNotFound(optstring, c, 0);
      }
    } else {
      var i := FirstPosition(optstring, c);
      KindFound(optstring, c, i, 0);
      forall j | FirstAt(optstring, c, j)
        ensures i == j
      {
        FirstUnique(optstring, c, i, j);
      }
    }
  }

  // ----- One argument at a time -----

  /** p is q with one event and some arguments in front. */
  ghost predicate Adds(p: Parsed, events: seq<Event>, front: seq<string>, q: Parsed)
  {
    p == Parsed(events + q.events, front + q.front, q.back)
  }

  /** An argument that is too short, or does not begin with a dash, is put aside. */
  lemma PutAside(optstring: string, x: string, rest: seq<string>)
    requires |x| < 2 || x[0] != '-'
    ensures
      var p, q := Parse(optstring, [x] + rest), Parse(optstring, rest);
      p == Parsed(q.events, q.front, [x] + q.back)
  {
    assert ([x] + rest)[1..] == rest;
  }

  /** Nothing behind "--" is looked at. */
  lemma EndOfOptions(optstring: string, rest: seq<string>)
    ensures Parse(optstring, ["--"] + rest) == Parsed([], ["--"], rest)
  {
    assert (["--"] + rest)[1..] == rest;
  }

  lemma OneElement(optstring: string, c: char, letters: string, rest: seq<string>)
    requires ['-', c] + letters != "--"
    ensures
      Parse(optstring, [['-', c] + letters] + rest) ==
      ParseLetters(optstring, [c] + letters, [['-', c] + letters] + rest)
  {
    var x := ['-', c] + letters;
    assert ([x] + rest)[0] == x && x[1..] == [c] + letters;
  }

  lemma ShortElement(optstring: string, c: char, rest: seq<string>)
    requires c != '-'
    ensures Parse(optstring, [['-', c]] + rest) == ParseLetters(optstring, [c], [['-', c]] + rest)
  {
    assert ['-', c] + "" == ['-', c] && [c] + "" == [c];
    assert ['-', c][1] != "--"[1];
    OneElement(optstring, c, "", rest);
  }

  lemma NextElement(optstring: string, x: string, rest: seq<string>, e: Event)
    ensures Adds(Behind(optstring, e, [x] + rest, 1), [e], [x], Parse(optstring, rest))
  {
    assert ([x] + rest)[1..] == rest && ([x] + rest)[..1] == [x];
  }

  /** An option without an argument, alone in its element. */
  lemma PlainOption(optstring: string, c: char, rest: seq<string>)
    requires TakesNone(optstring, c) && c != '-'
    ensures Adds(Parse(optstring, [['-', c]] + rest), [Found(c, None)], [['-', c]], Parse(optstring, rest))
  {
    KindIs(optstring, c);
    ShortElement(optstring, c, rest);
    NextElement(optstring, ['-', c], rest, Found(c, None));
  }

  /** A character that is not listed. */
  lemma UnknownOption(optstring: string, c: char, rest: seq<string>)
    requires NotListed(optstring, c) && c != '-'
    ensures Adds(Parse(optstring, [['-', c]] + rest), [Unknown(c)], [['-', c]], Parse(optstring, rest))
  {
    KindIs(optstring, c);
    ShortElement(optstring, c, rest);
    NextElement(optstring, ['-', c], rest, Unknown(c));
  }

  /** An option that needs an argument takes the next one, whatever it is. */
  lemma SeparateArgument(optstring: string, c: char, x: string, rest: seq<string>)
    requires TakesOne(optstring, c) && c != '-'
    ensures
      Adds(Parse(optstring, [['-', c], x] + rest), [Found(c, Some(x))], [['-', c], x], Parse(optstring, rest))
  {
    KindIs(optstring, c);
    var args := [['-', c], x] + rest;
    assert args == [['-', c]] + ([x] + rest);
    ShortElement(optstring, c, [x] + rest);
    assert args[2..] == rest && args[..2] == [['-', c], x] && args[1] == x;
  }

  /** At the end of the arguments it is missing. */
  lemma MissingArgument(optstring: string, c: char)
    requires TakesOne(optstring, c) && c != '-'
    ensures Parse(optstring, [['-', c]]) == Parsed([Missing(c)], [['-', c]], [])
  {
    KindIs(optstring, c);
    var none: seq<string> := [];
    assert [['-', c]] + none == [['-', c]];
    ShortElement(optstring, c, none);
    NextElement(optstring, ['-', c], none, Missing(c));
  }

  /** An optional argument is never taken from the next element. */
  lemma NoSeparateArgument(optstring: string, c: char, rest: seq<string>)
    requires MayTakeOne(optstring, c) && c != '-'
    ensures Adds(Parse(optstring, [['-', c]] + rest), [Found(c, None)], [['-', c]], Parse(optstring, rest))
  {
    KindIs(optstring, c);
    ShortElement(optstring, c, rest);
    NextElement(optstring, ['-', c], rest, Found(c, None));
  }

  /** What is left of the element is the argument, needed or optional. */
  lemma AttachedArgument(optstring: string, c: char, x: string, rest: seq<string>)
    requires (TakesOne(optstring, c) || MayTakeOne(optstring, c)) && x != ""
    ensures
      Adds(Parse(optstring, [['-', c] + x] + rest), [Found(c, Some(x))], [['-', c] + x], Parse(optstring, rest))
  {
    KindIs(optstring, c);
    OneElement(optstring, c, x, rest);
    NextElement(optstring, ['-', c] + x, rest, Found(c, Some(x)));
    assert ([c] + x)[1..] == x;
  }

  /** Options without arguments may share an element: "-ab" is "-a" and then "-b". */
  lemma SharedElement(optstring: string, c: char, d: char, letters: string, rest: seq<string>)
    requires TakesNone(optstring, c) || NotListed(optstring, c)
    requires ['-', d] + letters != "--"
    ensures
      var e := if TakesNone(optstring, c) then Found(c, None) else Unknown(c);
      Parse(optstring, [['-', c, d] + letters] + rest).events ==
      [e] + Parse(optstring, [['-', d] + letters] + rest).events
  {
    KindIs(optstring, c);
    var x, y := ['-', c, d] + letters, ['-', d] + letters;
    var more := [d] + letters;
    assert x == ['-', c] + more && |x| > 2;
    OneElement(optstring, c, more, rest);
    OneElement(optstring, d, letters, rest);
    assert ([c] + more)[1..] == more;
    assert ([x] + rest)[1..] == rest == ([y] + rest)[1..];
    SameEvents(optstring, more, [x] + rest, [y] + rest);
  }

  /** The events do not depend on the element that the letters come from. */
  lemma {:induction false} SameEvents(optstring: string, letters: string, args: seq<string>, args': seq<string>)
    requires letters != "" && args != [] && args' != [] && args[1..] == args'[1..]
    ensures ParseLetters(optstring, letters, args).events == ParseLetters(optstring, letters, args').events
    decreases |letters|, 0
  {
    assert |args| == |args[1..]| + 1 == |args'|;
    assert |args| > 1 ==> args[1] == args[1..][0] == args'[1..][0] == args'[1];
    assert |args| > 1 ==> args[2..] == args[1..][1..] == args'[1..][1..] == args'[2..];
    var c, rest := letters[0], letters[1..];
    match KindOf(optstring, c)
    case NoOption => SameAfter(optstring, Unknown(c), rest, args, args');
    case Plain => SameAfter(optstring, Found(c, None), rest, args, args');
    case OptionalArg =>
    case RequiredArg =>
  }

  lemma {:induction false} SameAfter(optstring: string, e: Event, rest: string, args: seq<string>, args': seq<string>)
    requires args != [] && args' != [] && args[1..] == args'[1..]
    ensures AfterLetter(optstring, e, rest, args).events == AfterLetter(optstring, e, rest, args').events
    decreases |rest|, 1
  {
    if rest != "" {
      SameEvents(optstring, rest, args, args');
    }
  }

  /** A missing argument is told from an unknown option only if optstring begins with a colon. */
  lemma MissingIsTold(optstring: string, c: char, code: int, optarg: Option<string>, optopt: char)
    requires Reports(optstring, Missing(c), code, optarg, optopt)
    ensures optopt == c && optarg == None
    ensures code == ':' as int <==> optstring != "" && optstring[0] == ':'
    ensures code != ':' as int ==> Reports(optstring, Unknown(c), code, optarg, optopt)
  {
  }
}
