/** The option table of getopt.h and the pure parts of argument scanning: C
    strings, the split of a long option at its first '=', and which table
    entry a long option name selects. */
module Options {
  import opened Wrappers

  const NUL: char := '\0'

  predicate NulFree(s: string)
  {
    forall i :: 0 <= i < |s| ==> s[i] != NUL
  }

  /** A C string: the characters before its terminating NUL. */
  type CStr = s: string | NulFree(s)

  /** The character read through a pointer to s at offset i; past the end
      that is the terminating NUL. */
  function Ch(s: string, i: int): char
  {
    if 0 <= i < |s| then s[i] else NUL
  }

  /** `arg_type`: whether an option takes an argument. */
  datatype ArgSpec = NoArgument | RequiredArgument | OptionalArgument

  /** `getopt::option`; the description, used only for help text, is left out. */
  datatype OptionSpec = OptionSpec(longName: CStr, shortName: char, hasArg: ArgSpec)

  /** Some entry of the table has short name ch (find_option(ch) != end()). */
  predicate HasShort(options: seq<OptionSpec>, ch: char)
  {
    exists k :: 0 <= k < |options| && options[k].shortName == ch
  }

  /** The index of the first entry with short name ch, or |options| (end())
      when there is none. */
  function FirstShort(options: seq<OptionSpec>, ch: char): (k: nat)
    ensures k <= |options|
    ensures k < |options| ==> options[k].shortName == ch
    ensures forall q :: 0 <= q < k ==> options[q].shortName != ch
  {
    if |options| == 0 then 0
    else if options[0].shortName == ch then 0
    else
      var k := 1 + FirstShort(options[1..], ch);
      assert forall q :: 1 <= q < |options| ==> options[q] == options[1..][q - 1];
      k
  }

  /** find_option returns end() exactly when no entry has short name ch. */
  lemma FirstShortIsEnd(options: seq<OptionSpec>, ch: char)
    ensures FirstShort(options, ch) == |options| <==> !HasShort(options, ch)
  {
    var k := FirstShort(options, ch);
    if k < |options| {
      assert options[k].shortName == ch;
    }
  }

  /** The test getopt_internal applies to argv[optind]: it does not start with
      '-', or it is exactly "-" and '-' is not itself a short option. */
  predicate IsNonOption(arg: string, options: seq<OptionSpec>)
  {
    Ch(arg, 0) != '-' || (Ch(arg, 1) == NUL && FirstShort(options, '-') == |options|)
  }

  /** The position of the first '=' in s (strchr), or |s| when there is none. */
  function EqualsIndex(s: string): (k: nat)
    ensures k <= |s|
    ensures k < |s| ==> s[k] == '='
    ensures forall i :: 0 <= i < k ==> s[i] != '='
  {
    if |s| == 0 || s[0] == '=' then 0
    else
      var k := 1 + EqualsIndex(s[1..]);
      assert forall i :: 1 <= i < k ==> s[i] == s[1..][i - 1];
      k
  }

  /** The option name of "name=value" or "name". */
  function LongName(arg: CStr): CStr
  {
    arg[..EqualsIndex(arg)]
  }

  /** The text after the first '=', if there is one. */
  function LongValue(arg: CStr): Option<CStr>
  {
    var k := EqualsIndex(arg);
    if k < |arg| then var v: CStr := arg[k + 1..]; Some(v) else None
  }

  /** parse_long_options splits its argument at the first '=' and at no other:
      the name holds no '=', and name, '=' and value put back together give
      the argument again. */
  lemma SplitAtFirstEquals(arg: CStr)
    ensures '=' !in LongName(arg)
    ensures LongValue(arg).Some? ==> arg == LongName(arg) + "=" + LongValue(arg).value
    ensures LongValue(arg).None? ==> arg == LongName(arg)
  {
    var k := EqualsIndex(arg);
    if k < |arg| {
      assert arg == arg[..k] + [arg[k]] + arg[k + 1..];
    }
  }

  /** The entry matches name partially: name is a proper prefix of its long
      name, and not a single character while short options are also tried. */
  predicate Partial(name: string, opt: OptionSpec, shortToo: bool)
  {
    name <= opt.longName && |opt.longName| != |name| && !(shortToo && |name| == 1)
  }

  /** Indices below n of the entries that match name partially, in order
      (PartialsExactly). */
  function PartialsBelow(options: seq<OptionSpec>, name: string, shortToo: bool, n: nat): (ps: seq<nat>)
    requires n <= |options|
    ensures |ps| <= n
  {
    if n == 0 then []
    else PartialsBelow(options, name, shortToo, n - 1) +
         (if Partial(name, options[n - 1], shortToo) then [n - 1] else [])
  }

  /** PartialsBelow lists exactly the partial matches below n, in increasing
      order. */
  lemma {:induction false} PartialsExactly(options: seq<OptionSpec>, name: string, shortToo: bool, n: nat)
    requires n <= |options|
    ensures forall j :: 0 <= j < |PartialsBelow(options, name, shortToo, n)| ==>
              PartialsBelow(options, name, shortToo, n)[j] < n &&
              Partial(name, options[PartialsBelow(options, name, shortToo, n)[j]], shortToo)
    ensures forall j1, j2 :: 0 <= j1 < j2 < |PartialsBelow(options, name, shortToo, n)| ==>
              PartialsBelow(options, name, shortToo, n)[j1] < PartialsBelow(options, name, shortToo, n)[j2]
    ensures forall q :: 0 <= q < n && Partial(name, options[q], shortToo) ==>
              q in PartialsBelow(options, name, shortToo, n)
  {
    if n > 0 {
      PartialsExactly(options, name, shortToo, n - 1);
      var prev := PartialsBelow(options, name, shortToo, n - 1);
      var ps := PartialsBelow(options, name, shortToo, n);
      assert forall j :: 0 <= j < |prev| ==> ps[j] == prev[j];
      assert |ps| > |prev| ==> ps[|prev|] == n - 1;
    }
  }

  /** The index of the first entry whose long name is exactly name, or
      |options| when there is none. */
  function FirstExact(options: seq<OptionSpec>, name: string): (e: nat)
    ensures e <= |options|
    ensures e < |options| ==> options[e].longName == name
    ensures forall q :: 0 <= q < e ==> options[q].longName != name
  {
    if |options| == 0 then 0
    else if options[0].longName == name then 0
    else
      var e := 1 + FirstExact(options[1..], name);
      assert forall q :: 1 <= q < e ==> options[q] == options[1..][q - 1];
      e
  }

  datatype MatchResult = NoMatch | Match(index: nat) | Ambiguous

  /** Which entry the long option name selects, stated without the search
      loop: a second partial match before the first exact match makes the
      name ambiguous; otherwise the first exact match wins, and failing that
      the only partial match. */
  function LongMatch(options: seq<OptionSpec>, name: string, shortToo: bool): MatchResult
  {
    var e := FirstExact(options, name);
    var ps := PartialsBelow(options, name, shortToo, e);
    if |ps| >= 2 then Ambiguous
    else if e < |options| then Match(e)
    else if |ps| == 1 then Match(ps[0])
    else NoMatch
  }

  /** A selected entry always starts with the name: it is the first exact
      match, or, when there is no exact match, the only partial one. */
  lemma {:induction false} MatchIsCandidate(options: seq<OptionSpec>, name: string, shortToo: bool, i: nat)
    requires LongMatch(options, name, shortToo) == Match(i)
    ensures i < |options| && name <= options[i].longName
    ensures options[i].longName == name ||
            ((forall q :: 0 <= q < |options| ==> options[q].longName != name) &&
             (forall q :: 0 <= q < |options| && Partial(name, options[q], shortToo) ==> q == i))
  {
    var e := FirstExact(options, name);
    var ps := PartialsBelow(options, name, shortToo, e);
    PartialsExactly(options, name, shortToo, e);
    if e == |options| {
      assert |ps| == 1 && i == ps[0];
      assert ps[0] < e && Partial(name, options[ps[0]], shortToo);
      forall q | 0 <= q < |options| && Partial(name, options[q], shortToo)
        ensures q == i
      {
        assert q in ps;
      }
    }
  }

  /** With short options also tried, a one-character name is never taken as
      an abbreviation: it selects only an entry with exactly that long name. */
  lemma SingleCharIsExact(options: seq<OptionSpec>, name: string, i: nat)
    requires |name| == 1 && LongMatch(options, name, true) == Match(i)
    ensures i < |options| && options[i].longName == name
  {
    var e := FirstExact(options, name);
    var ps := PartialsBelow(options, name, true, e);
    PartialsExactly(options, name, true, e);
    if e == |options| {
      assert false;
    }
  }

  /** An ambiguous name abbreviates two different entries, both found before
      any exact match. */
  lemma AmbiguousHasTwoCandidates(options: seq<OptionSpec>, name: string, shortToo: bool)
    requires LongMatch(options, name, shortToo) == Ambiguous
    ensures exists p1, p2 :: 0 <= p1 < p2 < |options| &&
              Partial(name, options[p1], shortToo) && Partial(name, options[p2], shortToo) &&
              (forall q :: 0 <= q <= p2 ==> options[q].longName != name)
  {
    var e := FirstExact(options, name);
    var ps := PartialsBelow(options, name, shortToo, e);
    PartialsExactly(options, name, shortToo, e);
    assert ps[0] < ps[1] < e;
    assert Partial(name, options[ps[0]], shortToo) && Partial(name, options[ps[1]], shortToo);
  }

  /** Nothing is selected exactly when no entry has the name as its long name
      and no entry matches it partially. */
  lemma NoMatchIff(options: seq<OptionSpec>, name: string, shortToo: bool)
    ensures LongMatch(options, name, shortToo) == NoMatch <==>
            forall q :: 0 <= q < |options| ==>
              options[q].longName != name && !Partial(name, options[q], shortToo)
  {
    var e := FirstExact(options, name);
    var ps := PartialsBelow(options, name, shortToo, e);
    PartialsExactly(options, name, shortToo, e);
    if LongMatch(options, name, shortToo) == NoMatch {
      assert e == |options| && |ps| == 0;
    } else if |ps| > 0 {
      assert ps[0] < e && Partial(name, options[ps[0]], shortToo);
    }
  }

  /** The search ends at the first exact match: entries after it cannot change
      the outcome. */
  lemma {:induction false} ExactEndsSearch(options: seq<OptionSpec>, more: seq<OptionSpec>, name: string, shortToo: bool, e: nat)
    requires e < |options| && options[e].longName == name
    requires forall q :: 0 <= q < e ==> options[q].longName != name
    ensures LongMatch(options[..e + 1] + more, name, shortToo) == LongMatch(options, name, shortToo)
  {
    var longer := options[..e + 1] + more;
    assert longer[e] == options[e];
    assert forall q :: 0 <= q <= e ==> longer[q] == options[q];
    FirstExactIs(options, name, e);
    FirstExactIs(longer, name, e);
    PartialsAgree(options, longer, name, shortToo, e);
  }

  lemma FirstExactIs(options: seq<OptionSpec>, name: string, e: nat)
    requires e < |options| && options[e].longName == name
    requires forall q :: 0 <= q < e ==> options[q].longName != name
    ensures FirstExact(options, name) == e
  {
  }

  lemma {:induction false} PartialsAgree(s: seq<OptionSpec>, t: seq<OptionSpec>, name: string, shortToo: bool, n: nat)
    requires n <= |s| && n <= |t|
    requires forall q :: 0 <= q < n ==> s[q] == t[q]
    ensures PartialsBelow(s, name, shortToo, n) == PartialsBelow(t, name, shortToo, n)
  {
    if n > 0 {
      PartialsAgree(s, t, name, shortToo, n - 1);
    }
  }
}
