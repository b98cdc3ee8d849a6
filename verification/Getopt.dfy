/** gk_getopt (src/getopt.c) for short options in the PERMUTE ordering: the scanner moves the
    non-options it has skipped behind the options it has found. */
module Getopt {
  import Sequences

  datatype Option<T> = None | Some(value: T)

  // ----- A parser that permutes nothing -----

  /** What one call reports: an option with its argument, a character that is none, or an option
      whose argument is missing. */
  datatype Event = Found(c: char, arg: Option<string>) | Unknown(c: char) | Missing(c: char)

  datatype Parsed = Parsed(events: seq<Event>, front: seq<string>, back: seq<string>)

  datatype Kind = NoOption | Plain | OptionalArg | RequiredArg

  predicate NonOption(arg: string)
  {
    |arg| < 2 || arg[0] != '-'
  }

  function CharAt(s: string, i: nat): char
  {
    if i < |s| then s[i] else '\0'
  }

  /** What optstring says about c: its first occurrence and the colons behind it. */
  function KindOf(optstring: string, c: char): Kind
  {
    if c == ':' then NoOption else KindFrom(optstring, c, 0)
  }

  function KindFrom(optstring: string, c: char, i: nat): Kind
    requires i <= |optstring|
    decreases |optstring| - i
  {
    if i == |optstring| then NoOption
    else if optstring[i] != c then KindFrom(optstring, c, i + 1)
    else if CharAt(optstring, i + 1) != ':' then Plain
    else if CharAt(optstring, i + 2) == ':' then OptionalArg
    else RequiredArg
  }

  /** All arguments from an element boundary on. */
  ghost function Parse(optstring: string, args: seq<string>): Parsed
    decreases |args|, 1, 0
  {
    if args == [] then Parsed([], [], [])
    else if args[0] == "--" then Parsed([], ["--"], args[1..])
    else if NonOption(args[0]) then
      var rest := Parse(optstring, args[1..]);
      rest.(back := [args[0]] + rest.back)
    else ParseLetters(optstring, args[0][1..], args)
  }

  /** The letters left in the element args[0], then everything behind it. */
  ghost function ParseLetters(optstring: string, letters: string, args: seq<string>): Parsed
    requires letters != "" ==> args != []
    decreases |args|, if letters == "" then 2 else 0, 2 * |letters| + 1
  {
    if letters == "" then Parse(optstring, args)
    else
      var c, rest := letters[0], letters[1..];
      match KindOf(optstring, c)
      case NoOption => AfterLetter(optstring, Unknown(c), rest, args)
      case Plain => AfterLetter(optstring, Found(c, None), rest, args)
      case OptionalArg => Behind(optstring, Found(c, if rest == "" then None else Some(rest)), args, 1)
      case RequiredArg =>
        if rest != "" then Behind(optstring, Found(c, Some(rest)), args, 1)
        else if |args| == 1 then Behind(optstring, Missing(c), args, 1)
        else Behind(optstring, Found(c, Some(args[1])), args, 2)
  }

  ghost function AfterLetter(optstring: string, e: Event, rest: string, args: seq<string>): Parsed
    requires args != []
    decreases |args|, 0, 2 * |rest| + 2
  {
    if rest == "" then Behind(optstring, e, args, 1)
    else
      var p := ParseLetters(optstring, rest, args);
      p.(events := [e] + p.events)
  }

  /** Event e ends an element; n arguments belong to it. */
  ghost function Behind(optstring: string, e: Event, args: seq<string>, n: nat): Parsed
    requires 1 <= n <= |args|
    decreases |args|, 0, 0
  {
    var p := Parse(optstring, args[n..]);
    Parsed([e] + p.events, args[..n] + p.front, p.back)
  }

  /** args is made of front and back, each in its own order. */
  ghost predicate Interleaves(args: seq<string>, front: seq<string>, back: seq<string>)
    decreases |args|
  {
    if args == [] then front == [] && back == []
    else
      || (front != [] && front[0] == args[0] && Interleaves(args[1..], front[1..], back))
      || (back != [] && back[0] == args[0] && Interleaves(args[1..], front, back[1..]))
  }

  lemma {:induction false} AllBack(args: seq<string>)
    ensures Interleaves(args, [], args)
  {
    if args != [] {
      AllBack(args[1..]);
    }
  }

  lemma {:induction false} FrontFirst(args: seq<string>, n: nat, front: seq<string>, back: seq<string>)
    requires n <= |args| && Interleaves(args[n..], front, back)
    ensures Interleaves(args, args[..n] + front, back)
    decreases n
  {
    if n > 0 {
      assert args[1..][n - 1..] == args[n..];
      FrontFirst(args[1..], n - 1, front, back);
      assert (args[..n] + front)[1..] == args[1..][..n - 1] + front;
    } else {
      assert args[0..] == args && args[..0] + front == front;
    }
  }

  /** The parser splits the arguments into two lists without reordering either. */
  lemma {:induction false} ParseIsStable(optstring: string, args: seq<string>)
    ensures Interleaves(args, Parse(optstring, args).front, Parse(optstring, args).back)
    decreases |args|, 1, 0
  {
    if args == [] {
    } else if args[0] == "--" {
      AllBack(args[1..]);
    } else if NonOption(args[0]) {
      ParseIsStable(optstring, args[1..]);
      var rest := Parse(optstring, args[1..]);
      assert ([args[0]] + rest.back)[1..] == rest.back;
    } else {
      LettersAreStable(optstring, args[0][1..], args);
    }
  }

  lemma {:induction false} LettersAreStable(optstring: string, letters: string, args: seq<string>)
    requires letters != "" && args != []
    ensures Interleaves(args, ParseLetters(optstring, letters, args).front, ParseLetters(optstring, letters, args).back)
    decreases |args|, 0, |letters|
  {
    ParseIsStable(optstring, args[1..]);
    FrontFirst(args, 1, Parse(optstring, args[1..]).front, Parse(optstring, args[1..]).back);
    if |args| > 1 {
      ParseIsStable(optstring, args[2..]);
      FrontFirst(args, 2, Parse(optstring, args[2..]).front, Parse(optstring, args[2..]).back);
    }
    if |letters| > 1 {
      LettersAreStable(optstring, letters[1..], args);
    }
    var c, rest := letters[0], letters[1..];
    match KindOf(optstring, c)
    case NoOption => AfterIs(optstring, Unknown(c), rest, args);
    case Plain => AfterIs(optstring, Found(c, None), rest, args);
    case OptionalArg => BehindIs(optstring, Found(c, if rest == "" then None else Some(rest)), args, 1);
    case RequiredArg =>
      if rest != "" {
        BehindIs(optstring, Found(c, Some(rest)), args, 1);
      } else if |args| == 1 {
        BehindIs(optstring, Missing(c), args, 1);
      } else {
        BehindIs(optstring, Found(c, Some(args[1])), args, 2);
      }
  }

  lemma BehindIs(optstring: string, e: Event, args: seq<string>, n: nat)
    requires 1 <= n <= |args|
    ensures Behind(optstring, e, args, n).front == args[..n] + Parse(optstring, args[n..]).front
    ensures Behind(optstring, e, args, n).back == Parse(optstring, args[n..]).back
  {
  }

  lemma AfterIs(optstring: string, e: Event, rest: string, args: seq<string>)
    requires args != []
    ensures var p := AfterLetter(optstring, e, rest, args);
            if rest == "" then
              p.front == args[..1] + Parse(optstring, args[1..]).front
              && p.back == Parse(optstring, args[1..]).back
            else
              p.front == ParseLetters(optstring, rest, args).front
              && p.back == ParseLetters(optstring, rest, args).back
  {
    if rest == "" {
      BehindIs(optstring, e, args, 1);
    }
  }

  // ----- Exchanging two blocks -----

  /** The blocks s[b..m] and s[m..t] have changed places. */
  ghost function Rotated<T>(s: seq<T>, b: int, m: int, t: int): seq<T>
    requires 0 <= b <= m <= t <= |s|
  {
    s[..b] + s[m..t] + s[b..m] + s[t..]
  }

  /** len elements from x on and from y on have changed places. */
  ghost function Swapped<T>(s: seq<T>, x: int, y: int, len: int): seq<T>
    requires 0 <= x && 0 <= len && x + len <= y && y + len <= |s|
  {
    s[..x] + s[y..y + len] + s[x + len..y] + s[x..x + len] + s[y + len..]
  }

  lemma BottomIsShort<T>(s: seq<T>, b: int, m: int, t: int)
    requires 0 <= b < m < t <= |s| && t - m > m - b
    ensures Rotated(Swapped(s, b, t - (m - b), m - b), b, m, t - (m - b)) == Rotated(s, b, m, t)
  {
    hide Rotated, Swapped;
    var k := t - (m - b);
    var w := Swapped(s, b, k, m - b);
    RotatedAt(s, b, m, t, 0);
    SwappedAt(s, b, k, m - b, 0);
    RotatedAt(w, b, m, k, 0);
    forall i | 0 <= i < |s|
      ensures Rotated(w, b, m, k)[i] == Rotated(s, b, m, t)[i]
    {
      BottomAt(s, b, m, t, i);
    }
  }

  lemma BottomAt<T>(s: seq<T>, b: int, m: int, t: int, i: int)
    requires 0 <= b < m < t <= |s| && t - m > m - b && 0 <= i < |s|
    ensures var k := t - (m - b);
            var w := Swapped(s, b, k, m - b);
            |w| == |s| == |Rotated(w, b, m, k)| == |Rotated(s, b, m, t)| &&
            Rotated(w, b, m, k)[i] == Rotated(s, b, m, t)[i]
  {
    hide Rotated, Swapped;
    var k := t - (m - b);
    var j := if i < b || k <= i then i else if i < b + (k - m) then i - b + m else i - (k - m);
    SwappedAt(s, b, k, m - b, j);
    RotatedAt(Swapped(s, b, k, m - b), b, m, k, i);
    RotatedAt(s, b, m, t, i);
  }

  lemma RotatedAt<T>(s: seq<T>, b: int, m: int, t: int, i: int)
    requires 0 <= b <= m <= t <= |s| && 0 <= i < |s|
    ensures |Rotated(s, b, m, t)| == |s|
    ensures Rotated(s, b, m, t)[i] ==
      if i < b || t <= i then s[i] else if i < b + (t - m) then s[i - b + m] else s[i - (t - m)]
  {
  }

  lemma SwappedAt<T>(s: seq<T>, x: int, y: int, len: int, i: int)
    requires 0 <= x && 0 <= len && x + len <= y && y + len <= |s| && 0 <= i < |s|
    ensures |Swapped(s, x, y, len)| == |s|
    ensures Swapped(s, x, y, len)[i] ==
      if x <= i < x + len then s[i + (y - x)] else if y <= i < y + len then s[i - (y - x)] else s[i]
  {
  }

  lemma TopIsShort<T>(s: seq<T>, b: int, m: int, t: int)
    requires 0 <= b < m < t <= |s| && t - m <= m - b
    ensures Rotated(Swapped(s, b, m, t - m), b + (t - m), m, t) == Rotated(s, b, m, t)
  {
    hide Rotated, Swapped;
    var k := b + (t - m);
    var w := Swapped(s, b, m, t - m);
    RotatedAt(s, b, m, t, 0);
    SwappedAt(s, b, m, t - m, 0);
    RotatedAt(w, k, m, t, 0);
    forall i | 0 <= i < |s|
      ensures Rotated(w, k, m, t)[i] == Rotated(s, b, m, t)[i]
    {
      TopAt(s, b, m, t, i);
    }
  }

  lemma TopAt<T>(s: seq<T>, b: int, m: int, t: int, i: int)
    requires 0 <= b < m < t <= |s| && t - m <= m - b && 0 <= i < |s|
    ensures var k := b + (t - m);
            var w := Swapped(s, b, m, t - m);
            |w| == |s| == |Rotated(w, k, m, t)| == |Rotated(s, b, m, t)| &&
            Rotated(w, k, m, t)[i] == Rotated(s, b, m, t)[i]
  {
    hide Rotated, Swapped;
    var k := b + (t - m);
    var j := if i < k || t <= i then i else if i < k + (t - m) then i - k + m else i - (t - m);
    SwappedAt(s, b, m, t - m, j);
    RotatedAt(Swapped(s, b, m, t - m), k, m, t, i);
    RotatedAt(s, b, m, t, i);
  }

  /** The swap loop of exchange. */
  method SwapBlocks(argv: array<string>, x: int, y: int, len: int)
    requires 0 <= x && 0 <= len && x + len <= y && y + len <= argv.Length
    modifies argv
    ensures argv[..] == Swapped(old(argv[..]), x, y, len)
  {
    for i := 0 to len
      invariant forall k :: 0 <= k < x || x + i <= k < y || y + i <= k < argv.Length ==> argv[k] == old(argv[k])
      invariant forall k :: x <= k < x + i ==> argv[k] == old(argv[k + (y - x)])
      invariant forall k :: y <= k < y + i ==> argv[k] == old(argv[k - (y - x)])
    {
      argv[x + i], argv[y + i] := argv[y + i], argv[x + i];
    }
    SwapDone(old(argv[..]), argv[..], x, y, len);
  }

  lemma SwapDone<T>(s: seq<T>, s': seq<T>, x: int, y: int, len: int)
    requires 0 <= x && 0 <= len && x + len <= y && y + len <= |s| == |s'|
    requires forall k :: 0 <= k < x || x + len <= k < y || y + len <= k < |s| ==> s'[k] == s[k]
    requires forall k :: x <= k < x + len ==> s'[k] == s[k + (y - x)]
    requires forall k :: y <= k < y + len ==> s'[k] == s[k - (y - x)]
    ensures s' == Swapped(s, x, y, len)
  {
    forall i | 0 <= i < |s|
      ensures s'[i] == Swapped(s, x, y, len)[i]
    {
      SwappedAt(s, x, y, len, i);
    }
  }

  // ----- The scanner -----

  /** Between two calls: argv[first..last] are the non-options skipped so far, the rest before
      optind are options, and done the events they made. With what is still to be parsed this
      adds up to the parse of the original arguments. */
  ghost predicate InScan(optstring: string, args: seq<string>, argv: seq<string>, first: int, last: int, optind: int,
                         nextchar: string, done: seq<Event>)
  {
    && 1 <= first <= last <= optind <= |args| == |argv|
    && argv[0] == args[0] && argv[optind..] == args[optind..]
    && (nextchar != "" ==> optind < |args|)
    && var p := ParseLetters(optstring, nextchar, args[optind..]);
       Parse(optstring, args[1..]) ==
         Parsed(done + p.events, argv[1..first] + argv[last..optind] + p.front, argv[first..last] + p.back)
  }

  /** After the scan: a stable partition, with optind at the first non-option. */
  ghost predicate Finished(optstring: string, args: seq<string>, argv: seq<string>, optind: int, done: seq<Event>)
    requires args != []
  {
    var p := Parse(optstring, args[1..]);
    done == p.events && argv == args[..1] + p.front + p.back && optind == 1 + |p.front|
  }

  lemma StartScan(optstring: string, args: seq<string>)
    requires args != []
    ensures InScan(optstring, args, args, 1, 1, 1, "", [])
  {
    var p := Parse(optstring, args[1..]);
    assert ParseLetters(optstring, "", args[1..]) == p;
    assert args[1..1] + args[1..1] + p.front == p.front;
    assert args[1..1] + p.back == p.back;
    assert [] + p.events == p.events;
  }

  lemma ExchangeStep(optstring: string, args: seq<string>, argv: seq<string>, first: int, last: int, optind: int,
                     done: seq<Event>)
    requires InScan(optstring, args, argv, first, last, optind, "", done)
    ensures
      InScan(optstring, args, Rotated(argv, first, last, optind), first + (optind - last), optind, optind, "", done)
  {
    var argv' := Rotated(argv, first, last, optind);
    var first' := first + (optind - last);
    RotatedParts(argv, first, last, optind);
    hide Rotated, Parse, ParseLetters;
    assert argv'[1..first'] == argv'[..first][1..] + argv'[first..first'] == argv[1..first] + argv[last..optind];
    assert argv'[optind..optind] == [] && argv'[0] == argv'[..first][0];
  }

  /** Where the parts are after a rotation. */
  lemma RotatedParts<T>(s: seq<T>, b: int, m: int, t: int)
    requires 0 <= b <= m <= t <= |s|
    ensures var w, k := Rotated(s, b, m, t), b + (t - m);
            && |w| == |s| && w[..b] == s[..b] && w[b..k] == s[m..t] && w[k..t] == s[b..m] && w[t..] == s[t..]
  {
  }

  lemma AbsorbStep(optstring: string, args: seq<string>, argv: seq<string>, first: int, optind: int, done: seq<Event>)
    requires InScan(optstring, args, argv, first, first, optind, "", done)
    ensures InScan(optstring, args, argv, optind, optind, optind, "", done)
  {
    assert argv[1..first] + argv[first..optind] == argv[1..optind] + argv[optind..optind];
    assert argv[first..first] == argv[optind..optind] == [];
  }

  lemma ParseSkips(optstring: string, args: seq<string>)
    requires args != [] && NonOption(args[0])
    ensures var rest := Parse(optstring, args[1..]);
            ParseLetters(optstring, "", args) == rest.(back := [args[0]] + rest.back)
  {
  }

  lemma ParseNext(optstring: string, args: seq<string>)
    ensures ParseLetters(optstring, "", args) == Parse(optstring, args)
  {
  }

  lemma SkipStep(optstring: string, args: seq<string>, argv: seq<string>, first: int, optind: int, done: seq<Event>)
    requires InScan(optstring, args, argv, first, optind, optind, "", done)
    requires optind < |args| && NonOption(argv[optind])
    ensures InScan(optstring, args, argv, first, optind + 1, optind + 1, "", done)
  {
    hide Parse, ParseLetters, NonOption;
    assert argv[optind..][0] == args[optind..][0] == args[optind];
    assert args[optind..][1..] == args[optind + 1..];
    assert argv[optind + 1..] == argv[optind..][1..];
    ParseSkips(optstring, args[optind..]);
    ParseNext(optstring, args[optind + 1..]);
    var rest := Parse(optstring, args[optind + 1..]);
    assert argv[first..optind + 1] == argv[first..optind] + [args[optind]];
    assert argv[first..optind] + ([args[optind]] + rest.back) == argv[first..optind + 1] + rest.back;
    assert argv[optind..optind] == argv[optind + 1..optind + 1];
  }

  /** The argument "--", which argv shows at optind, is an option of its own; nothing behind it is. */
  lemma EndMarkStep(optstring: string, args: seq<string>, argv: seq<string>, first: int, optind: int, done: seq<Event>)
    requires InScan(optstring, args, argv, first, optind, optind, "", done)
    requires optind < |args| && argv[optind] == "--"
    ensures Finished(optstring, args, Rotated(argv, first, optind, optind + 1), first + 1, done)
  {
    hide Rotated, Parse, ParseLetters;
    assert argv[optind..][0] == args[optind..][0] == args[optind];
    assert args[optind + 1..] == args[optind..][1..] == argv[optind..][1..] == argv[optind + 1..];
    EndMarkParsed(optstring, args[optind..]);
    assert argv[optind..optind] == [] && argv[1..first] + [] + ["--"] == argv[1..first] + ["--"];
    assert args[..1] == argv[..1] && done + [] == done;
    EndMarkMoved(argv, first, optind);
  }

  lemma EndMarkMoved(argv: seq<string>, first: int, optind: int)
    requires 1 <= first <= optind < |argv| && argv[optind] == "--"
    ensures Rotated(argv, first, optind, optind + 1)
         == argv[..1] + (argv[1..first] + ["--"]) + (argv[first..optind] + argv[optind + 1..])
  {
    assert argv[..first] == argv[..1] + argv[1..first] && argv[optind..optind + 1] == ["--"];
    Sequences.Associative(argv[..1], argv[1..first], ["--"]);
    Sequences.Associative(argv[..first] + ["--"], argv[first..optind], argv[optind + 1..]);
  }

  lemma EndMarkParsed(optstring: string, args: seq<string>)
    requires args != [] && args[0] == "--"
    ensures ParseLetters(optstring, "", args) == Parsed([], ["--"], args[1..])
  {
  }

  lemma EndStep(optstring: string, args: seq<string>, argv: seq<string>, first: int, done: seq<Event>)
    requires args != [] && InScan(optstring, args, argv, first, |args|, |args|, "", done)
    ensures Finished(optstring, args, argv, first, done)
  {
    hide Parse, ParseLetters;
    var n := |args|;
    NothingParsed(optstring, args[n..]);
    assert argv[n..n] == [] && argv[1..first] + [] + [] == argv[1..first] && argv[first..n] + [] == argv[first..];
    assert args[..1] == argv[..1] && done + [] == done;
    assert argv == argv[..1] + argv[1..first] + argv[first..];
  }

  lemma NothingParsed(optstring: string, args: seq<string>)
    requires args == []
    ensures ParseLetters(optstring, "", args) == Parsed([], [], [])
  {
  }

  lemma OpenElement(optstring: string, args: seq<string>, argv: seq<string>, first: int, last: int, optind: int,
                    done: seq<Event>)
    requires InScan(optstring, args, argv, first, last, optind, "", done)
    requires optind < |args| && !NonOption(argv[optind]) && argv[optind] != "--"
    ensures |argv[optind]| > 1 && InScan(optstring, args, argv, first, last, optind, argv[optind][1..], done)
  {
    assert argv[optind..][0] == args[optind..][0] == args[optind];
    assert ParseLetters(optstring, "", args[optind..]) == Parse(optstring, args[optind..]);
    assert Parse(optstring, args[optind..]) == ParseLetters(optstring, args[optind][1..], args[optind..]);
  }

  /** A letter in the middle of an element. */
  lemma LetterStep(optstring: string, args: seq<string>, argv: seq<string>, first: int, last: int, optind: int,
                   nextchar: string, done: seq<Event>, e: Event)
    requires |nextchar| > 1 && InScan(optstring, args, argv, first, last, optind, nextchar, done)
    requires match KindOf(optstring, nextchar[0])
             case NoOption => e == Unknown(nextchar[0])
             case Plain => e == Found(nextchar[0], None)
             case _ => false
    ensures InScan(optstring, args, argv, first, last, optind, nextchar[1..], done + [e])
  {
    var q := ParseLetters(optstring, nextchar[1..], args[optind..]);
    assert ParseLetters(optstring, nextchar, args[optind..]) == q.(events := [e] + q.events);
    assert done + ([e] + q.events) == done + [e] + q.events;
  }

  /** The last event of an element. */
  lemma ElementStep(optstring: string, args: seq<string>, argv: seq<string>, first: int, last: int, optind: int,
                    nextchar: string, done: seq<Event>, e: Event, n: nat)
    requires nextchar != "" && InScan(optstring, args, argv, first, last, optind, nextchar, done)
    requires 1 <= n && optind + n <= |args|
    requires ParseLetters(optstring, nextchar, args[optind..]) == Behind(optstring, e, args[optind..], n)
    ensures InScan(optstring, args, argv, first, last, optind + n, "", done + [e])
  {
    var q := Parse(optstring, args[optind + n..]);
    assert args[optind..][n..] == args[optind + n..];
    assert argv[optind + n..] == argv[optind..][n..];
    assert done + ([e] + q.events) == done + [e] + q.events;
    assert args[optind..][..n] == argv[optind..][..n] == argv[optind..optind + n];
    assert argv[last..optind] + argv[optind..optind + n] == argv[last..optind + n];
    assert argv[1..first] + argv[last..optind] + (argv[optind..optind + n] + q.front)
        == argv[1..first] + argv[last..optind + n] + q.front;
  }

  /** What the caller sees of an event. */
  ghost predicate Reports(optstring: string, e: Event, code: int, optarg: Option<string>, optopt: char)
  {
    match e
    case Found(c, arg) => code == c as int && optarg == arg
    case Unknown(c) => code == '?' as int && optarg == None && optopt == c
    case Missing(c) =>
      code == (if CharAt(optstring, 0) == ':' then ':' else '?') as int && optarg == None && optopt == c
  }

  predicate Permutes(optstring: string)
  {
    CharAt(optstring, 0) != '-' && CharAt(optstring, 0) != '+'
  }

  class Scanner {
    var optind: int
    var firstNonopt: int
    var lastNonopt: int
    var nextchar: string
    var optarg: Option<string>
    var optopt: char
    var initialized: bool

    constructor ()
      ensures optind == 1 && !initialized && nextchar == ""
    {
      optind := 1;
      firstNonopt, lastNonopt := 0, 0;
      nextchar, optarg, optopt := "", None, '?';
      initialized := false;
    }

    ghost predicate Ready(optstring: string, args: seq<string>, argv: seq<string>, done: seq<Event>)
      reads this
    {
      if initialized then InScan(optstring, args, argv, firstNonopt, lastNonopt, optind, nextchar, done)
      else optind == 1 && nextchar == "" && argv == args && done == [] && args != []
    }

    /** exchange: a rotation of the skipped non-options and the options found since. */
    method Exchange(argv: array<string>)
      requires 0 <= firstNonopt <= lastNonopt <= optind <= argv.Length
      modifies this`firstNonopt, this`lastNonopt, argv
      ensures argv[..] == Rotated(old(argv[..]), old(firstNonopt), old(lastNonopt), optind)
      ensures firstNonopt == old(firstNonopt) + (optind - old(lastNonopt)) && lastNonopt == optind
    {
      hide Rotated, Swapped;
      var bottom, middle, top := firstNonopt, lastNonopt, optind;
      ghost var s := argv[..];
      while top > middle && middle > bottom
        modifies argv
        invariant 0 <= bottom <= middle <= top <= argv.Length
        invariant Rotated(argv[..], bottom, middle, top) == Rotated(s, firstNonopt, lastNonopt, optind)
        decreases top - bottom
      {
        if top - middle > middle - bottom {
          var len := middle - bottom;
          BottomIsShort(argv[..], bottom, middle, top);
          SwapBlocks(argv, bottom, top - len, len);
          top := top - len;
        } else {
          var len := top - middle;
          TopIsShort(argv[..], bottom, middle, top);
          SwapBlocks(argv, bottom, middle, len);
          bottom := bottom + len;
        }
      }
      NothingLeft(argv[..], bottom, middle, top);
      firstNonopt := firstNonopt + (optind - lastNonopt);
      lastNonopt := optind;
    }

    /** Advances to the next argument; true at the end of the scan. */
    method Advance(optstring: string, argv: array<string>, ghost args: seq<string>, ghost done: seq<Event>)
      returns (ended: bool)
      requires nextchar == "" && InScan(optstring, args, argv[..], firstNonopt, lastNonopt, optind, "", done)
      modifies this`firstNonopt, this`lastNonopt, this`optind, this`nextchar, argv
      ensures ended ==> Finished(optstring, args, argv[..], optind, done)
      ensures !ended ==> nextchar != ""
      ensures !ended ==> InScan(optstring, args, argv[..], firstNonopt, lastNonopt, optind, nextchar, done)
    {
      hide InScan, Finished, Rotated, NonOption;
      var argc := argv.Length;
      Bounds(optstring, args, argv[..], firstNonopt, lastNonopt, optind, "", done);
      if lastNonopt > optind {
        assert false;
      }
      if firstNonopt > optind {
        assert false;
      }
      PassNonOptions(optstring, argv, args, done);
      Bounds(optstring, args, argv[..], firstNonopt, optind, optind, "", done);
      if optind != argc && argv[optind] == "--" {
        EndMarkStep(optstring, args, argv[..], firstNonopt, optind, done);
        ended := EndMark(argv);
        return;
      }
      if optind == argc {
        EndStep(optstring, args, argv[..], firstNonopt, done);
        if firstNonopt != lastNonopt {
          optind := firstNonopt;
        }
        return true;
      }
      OpenElement(optstring, args, argv[..], firstNonopt, lastNonopt, optind, done);
      nextchar := argv[optind][1..];
      return false;
    }

    /** Exchanges skipped non-options with the options behind them and skips more of them. */
    method PassNonOptions(optstring: string, argv: array<string>, ghost args: seq<string>, ghost done: seq<Event>)
      requires InScan(optstring, args, argv[..], firstNonopt, lastNonopt, optind, "", done)
      modifies this`firstNonopt, this`lastNonopt, this`optind, argv
      ensures lastNonopt == optind && InScan(optstring, args, argv[..], firstNonopt, optind, optind, "", done)
      ensures optind < argv.Length ==> !NonOption(argv[optind])
    {
      hide InScan, Rotated, NonOption;
      var argc := argv.Length;
      Bounds(optstring, args, argv[..], firstNonopt, lastNonopt, optind, "", done);
      if firstNonopt != lastNonopt && lastNonopt != optind {
        ExchangeStep(optstring, args, argv[..], firstNonopt, lastNonopt, optind, done);
        Exchange(argv);
      } else if lastNonopt != optind {
        AbsorbStep(optstring, args, argv[..], firstNonopt, optind, done);
        firstNonopt := optind;
      }
      Bounds(optstring, args, argv[..], firstNonopt, optind, optind, "", done);
      ghost var moved := argv[..];
      while optind < argc && NonOption(argv[optind])
        modifies this`optind
        invariant firstNonopt <= optind <= argc && argv[..] == moved
        invariant InScan(optstring, args, moved, firstNonopt, optind, optind, "", done)
      {
        SkipStep(optstring, args, moved, firstNonopt, optind, done);
        optind := optind + 1;
      }
      lastNonopt := optind;
    }

    /** Moves the "--" before the non-options and ends the scan. */
    method EndMark(argv: array<string>) returns (ended: bool)
      requires 1 <= firstNonopt <= lastNonopt == optind < argv.Length
      modifies this`firstNonopt, this`lastNonopt, this`optind, argv
      ensures ended && optind == old(firstNonopt) + 1
      ensures argv[..] == Rotated(old(argv[..]), old(firstNonopt), old(optind), old(optind) + 1)
    {
      var argc := argv.Length;
      optind := optind + 1;
      if firstNonopt != lastNonopt && lastNonopt != optind {
        Exchange(argv);
      } else if firstNonopt == lastNonopt {
        firstNonopt := optind;
      }
      lastNonopt := argc;
      optind := argc;
      if firstNonopt != lastNonopt {
        optind := firstNonopt;
      }
      return true;
    }

    /** Looks up and handles one option character. */
    method Decode(optstring: string, argv: array<string>, ghost args: seq<string>, ghost done: seq<Event>)
      returns (code: int, ghost e: Event)
      requires nextchar != "" && optarg == None
      requires InScan(optstring, args, argv[..], firstNonopt, lastNonopt, optind, nextchar, done)
      modifies this`optind, this`nextchar, this`optarg, this`optopt
      ensures InScan(optstring, args, argv[..], firstNonopt, lastNonopt, optind, nextchar, done + [e])
      ensures Reports(optstring, e, code, optarg, optopt)
    {
      hide InScan;
      Bounds(optstring, args, argv[..], firstNonopt, lastNonopt, optind, nextchar, done);
      ghost var letters, at := nextchar, optind;
      ghost var rest := args[at..];
      var c := nextchar[0];
      nextchar := nextchar[1..];
      if nextchar == "" {
        optind := optind + 1;
      }
      code := c as int;
      match KindOf(optstring, c) {
        case NoOption =>
          optopt := c;
          code := '?' as int;
          e := Unknown(c);
        case Plain =>
          e := Found(c, None);
        case OptionalArg =>
          if nextchar != "" {
            optarg := Some(nextchar);
            optind := optind + 1;
          } else {
            optarg := None;
          }
          nextchar := "";
          e := Found(c, optarg);
        case RequiredArg =>
          if nextchar != "" {
            optarg := Some(nextchar);
            optind := optind + 1;
            e := Found(c, optarg);
          } else if optind == argv.Length {
            optopt := c;
            code := (if CharAt(optstring, 0) == ':' then ':' else '?') as int;
            e := Missing(c);
          } else {
            optarg := Some(argv[optind]);
            optind := optind + 1;
            e := Found(c, optarg);
          }
          nextchar := "";
      }
      DecodeStep(optstring, args, argv[..], firstNonopt, lastNonopt, at, letters, done, e, optind, nextchar);
    }

    /** gk_getopt: one option character of the command line, or -1 at its end. */
    method Next(optstring: string, argv: array<string>, ghost args: seq<string>, ghost done: seq<Event>)
      returns (code: int, ghost e: Event)
      requires Permutes(optstring) && argv.Length > 0 && Ready(optstring, args, argv[..], done)
      modifies this, argv
      ensures code == -1 ==> Finished(optstring, args, argv[..], optind, done)
      ensures code != -1 ==> initialized && Ready(optstring, args, argv[..], done + [e])
      ensures code != -1 ==> Reports(optstring, e, code, optarg, optopt)
    {
      hide InScan, Finished;
      optarg := None;
      e := Unknown('?');
      if !initialized {
        StartScan(optstring, args);
        firstNonopt, lastNonopt := optind, optind;
        initialized := true;
      }
      if nextchar == "" {
        var ended := Advance(optstring, argv, args, done);
        if ended {
          return -1, e;
        }
      }
      code, e := Decode(optstring, argv, args, done);
    }
  }

  lemma NothingLeft<T>(s: seq<T>, b: int, m: int, t: int)
    requires 0 <= b <= m <= t <= |s| && (b == m || m == t)
    ensures Rotated(s, b, m, t) == s
  {
  }

  lemma Bounds(optstring: string, args: seq<string>, argv: seq<string>, first: int, last: int, optind: int,
               nextchar: string, done: seq<Event>)
    requires InScan(optstring, args, argv, first, last, optind, nextchar, done)
    ensures 1 <= first <= last <= optind <= |args| == |argv| && (nextchar != "" ==> optind < |args|)
  {
  }

  /** Where the scanner stands after one character. */
  lemma DecodeStep(optstring: string, args: seq<string>, argv: seq<string>, first: int, last: int, optind: int,
                   letters: string, done: seq<Event>, e: Event, optind': int, nextchar: string)
    requires letters != "" && InScan(optstring, args, argv, first, last, optind, letters, done)
    requires var c, rest := letters[0], letters[1..];
             match KindOf(optstring, c)
             case NoOption => e == Unknown(c) && nextchar == rest && optind' == optind + if rest == "" then 1 else 0
             case Plain => e == Found(c, None) && nextchar == rest && optind' == optind + if rest == "" then 1 else 0
             case OptionalArg =>
               e == Found(c, if rest == "" then None else Some(rest)) && nextchar == "" && optind' == optind + 1
             case RequiredArg =>
               nextchar == "" &&
               if rest != "" then e == Found(c, Some(rest)) && optind' == optind + 1
               else if optind + 1 == |argv| then e == Missing(c) && optind' == optind + 1
               else optind + 1 < |argv| && e == Found(c, Some(argv[optind + 1])) && optind' == optind + 2
    ensures InScan(optstring, args, argv, first, last, optind', nextchar, done + [e])
  {
    var c, rest := letters[0], letters[1..];
    var kind := KindOf(optstring, c);
    Bounds(optstring, args, argv, first, last, optind, letters, done);
    NextArgument(optstring, args, argv, first, last, optind, letters, done);
    hide InScan;
    if (kind.NoOption? || kind.Plain?) && rest != "" {
      LetterStep(optstring, args, argv, first, last, optind, letters, done, e);
    } else {
      ElementStep(optstring, args, argv, first, last, optind, letters, done, e, optind' - optind);
    }
  }

  lemma NextArgument(optstring: string, args: seq<string>, argv: seq<string>, first: int, last: int, optind: int,
                     letters: string, done: seq<Event>)
    requires InScan(optstring, args, argv, first, last, optind, letters, done)
    ensures optind + 1 < |argv| ==> argv[optind + 1] == args[optind..][1]
  {
    if optind + 1 < |argv| {
      assert argv[optind..][1] == argv[optind + 1];
    }
  }

  lemma DoneFits(optstring: string, args: seq<string>, argv: seq<string>, first: int, last: int, optind: int,
                 nextchar: string, done: seq<Event>)
    requires InScan(optstring, args, argv, first, last, optind, nextchar, done)
    ensures args != [] && |done| <= |Parse(optstring, args[1..]).events|
  {
  }

  /** What a caller collects who calls until -1. */
  datatype Report = Report(code: int, optarg: Option<string>, optopt: char)

  /** A complete scan reports what the parser finds, in order, and leaves argv as a stable partition
      into the options with their arguments and the non-options. */
  method ScanAll(optstring: string, argv: array<string>) returns (reports: seq<Report>, optind: int)
    requires Permutes(optstring) && argv.Length > 0
    modifies argv
    ensures var p := Parse(optstring, old(argv[1..]));
            && argv[..] == old(argv[..1]) + p.front + p.back && optind == 1 + |p.front|
            && |reports| == |p.events|
            && forall k :: 0 <= k < |reports| ==>
                 Reports(optstring, p.events[k], reports[k].code, reports[k].optarg, reports[k].optopt)
  {
    hide InScan, Reports;
    ghost var args := argv[..];
    ghost var done: seq<Event> := [];
    ghost var all := Parse(optstring, args[1..]).events;
    var scanner := new Scanner();
    reports := [];
    var code, e := scanner.Next(optstring, argv, args, done);
    while code != -1
      invariant fresh(scanner)
      invariant code == -1 ==> Finished(optstring, args, argv[..], scanner.optind, done)
      invariant code != -1 ==> scanner.Ready(optstring, args, argv[..], done + [e]) && scanner.initialized
      invariant code != -1 ==> Reports(optstring, e, code, scanner.optarg, scanner.optopt)
      invariant |reports| == |done| && forall k :: 0 <= k < |reports| ==>
                  Reports(optstring, done[k], reports[k].code, reports[k].optarg, reports[k].optopt)
      decreases |all| - |done|, if code == -1 then 0 else 1
    {
      reports := reports + [Report(code, scanner.optarg, scanner.optopt)];
      done := done + [e];
      DoneFits(optstring, args, argv[..], scanner.firstNonopt, scanner.lastNonopt, scanner.optind, scanner.nextchar,
               done);
      code, e := scanner.Next(optstring, argv, args, done);
    }
    optind := scanner.optind;
  }
}
