/** The command-line parser of getopt.h: a BSD-style getopt_long that scans
    argv one option per call, lets options and non-options be mixed by
    exchanging blocks of argv in place (module Permute), and reports errors
    by throwing, modelled here as an Outcome. */
module GetOpt {
  import opened Wrappers
  import opened Options
  import opened Permute

  /** The code returned for a non-option when ALLARGS is set. */
  const INORDER := 1

  /** The bits of `flags`. */
  const NOPERMUTE: bv32 := 1
  const ALLARGS: bv32 := 2
  const LONGONLY: bv32 := 4
  const WOPTIONS: bv32 := 8
  const IGNORE_MISSING_ARGS: bv32 := 16

  /** The four exception classes getopt throws, with the text they carry. */
  datatype OptionError =
    | MissingArgument(option: string)
    | AmbiguousOption(option: string)
    | ExcessArgument(option: string)
    | UnknownOption(option: string)

  /** What a call gives back: the int it returns, or the exception it throws. */
  datatype Outcome = Code(code: int) | Threw(error: OptionError)

  /** The fields of `result` after one long option has been parsed. */
  datatype Scan = Scan(outcome: Outcome, optind: int, optarg: Option<CStr>, chosenOption: Option<nat>)

  /** What parse_long_options does with arg, stated through LongMatch instead
      of the search loop.  optind is the index of the argument being parsed;
      next is the argv entry after it, taken as the value of an option with a
      required argument and no "=value". */
  function LongStep(options: seq<OptionSpec>, flags: bv32, arg: CStr, shortToo: bool,
                    optind: int, optarg: Option<CStr>, chosen: Option<nat>, next: Option<CStr>): Scan
  {
    var name, value := LongName(arg), LongValue(arg);
    match LongMatch(options, name, shortToo)
    case Ambiguous => Scan(Threw(AmbiguousOption(arg)), optind + 1, optarg, chosen)
    case NoMatch =>
      if shortToo then Scan(Code(-1), optind, optarg, chosen)
      else Scan(Threw(UnknownOption(arg)), optind + 1, optarg, chosen)
    case Match(i) =>
      MatchIsCandidate(options, name, shortToo, i);
      var o := options[i];
      if o.hasArg == NoArgument && value.Some? then
        Scan(Threw(ExcessArgument(arg)), optind + 1, optarg, chosen)
      else
        var taken := o.hasArg == RequiredArgument && value.None?;
        var a := if o.hasArg != NoArgument && value.Some? then value
                 else if taken then next
                 else optarg;
        var ind := if taken then optind + 2 else optind + 1;
        if o.hasArg == RequiredArgument && a.None? && flags & IGNORE_MISSING_ARGS == 0 then
          Scan(Threw(MissingArgument(arg)), ind, a, chosen)
        else
          Scan(Code(o.shortName as int), ind, a, Some(i))
  }

  /** The shape of every outcome of parse_long_options: -1 (with nothing
      changed) exactly when short options are also tried and nothing matches;
      otherwise optind advances by one, or two when the next entry is taken;
      a returned code is the short name of the selected entry, which is
      recorded as the chosen option; an exception leaves the chosen option
      alone. */
  lemma LongStepFacts(options: seq<OptionSpec>, flags: bv32, arg: CStr, shortToo: bool,
                      optind: int, optarg: Option<CStr>, chosen: Option<nat>, next: Option<CStr>)
    ensures var s := LongStep(options, flags, arg, shortToo, optind, optarg, chosen, next);
            (s.outcome == Code(-1) <==> shortToo && LongMatch(options, LongName(arg), shortToo) == NoMatch) &&
            (s.outcome == Code(-1) ==> s == Scan(Code(-1), optind, optarg, chosen)) &&
            (s.outcome != Code(-1) ==> s.optind == optind + 1 || s.optind == optind + 2) &&
            (s.outcome.Code? && s.outcome.code != -1 ==>
               s.chosenOption.Some? && s.chosenOption.value < |options| &&
               LongMatch(options, LongName(arg), shortToo) == Match(s.chosenOption.value) &&
               s.outcome.code == options[s.chosenOption.value].shortName as int) &&
            (s.outcome.Threw? ==> s.chosenOption == chosen)
  {
    match LongMatch(options, LongName(arg), shortToo)
    case Match(i) => MatchIsCandidate(options, LongName(arg), shortToo, i);
    case _ =>
  }

  /** A selected option with a required argument takes "=value" when there
      is one and otherwise the next argv entry (advancing optind past it);
      without a value it is an error exactly when IGNORE_MISSING_ARGS is
      clear. */
  lemma RequiredGetsValue(options: seq<OptionSpec>, flags: bv32, arg: CStr, shortToo: bool,
                          optind: int, optarg: Option<CStr>, chosen: Option<nat>, next: Option<CStr>, i: nat)
    requires LongMatch(options, LongName(arg), shortToo) == Match(i)
    requires i < |options| && options[i].hasArg == RequiredArgument
    ensures var s := LongStep(options, flags, arg, shortToo, optind, optarg, chosen, next);
            s.optarg == (if LongValue(arg).Some? then LongValue(arg) else next) &&
            s.optind == (if LongValue(arg).Some? then optind + 1 else optind + 2) &&
            s.outcome == (if s.optarg.None? && flags & IGNORE_MISSING_ARGS == 0
                          then Threw(MissingArgument(arg)) else Code(options[i].shortName as int))
  {
  }

  /** A value given with "=" to an option that takes none is an error. */
  lemma ExcessIsRejected(options: seq<OptionSpec>, flags: bv32, arg: CStr, shortToo: bool,
                         optind: int, optarg: Option<CStr>, chosen: Option<nat>, next: Option<CStr>, i: nat)
    requires LongMatch(options, LongName(arg), shortToo) == Match(i)
    requires i < |options| && options[i].hasArg == NoArgument && LongValue(arg).Some?
    ensures LongStep(options, flags, arg, shortToo, optind, optarg, chosen, next).outcome == Threw(ExcessArgument(arg))
  {
  }

  /** What getopt_internal does with the short option character at offset p
      of place, the argument at index optind, other than "-W" (which is
      parsed as a long option).  next is the argv entry after place.  Since
      `place` is a local variable, an option character followed by more
      characters leaves optind unchanged and is not remembered. */
  function ShortStep(options: seq<OptionSpec>, flags: bv32, place: CStr, p: nat,
                     optind: int, argc: int, chosen: Option<nat>, next: Option<CStr>): Scan
  {
    var c := Ch(place, p);
    var more := Ch(place, p + 1) != NUL;
    if c == ':' || (c == '-' && more) || FirstShort(options, c) == |options| then
      if c == '-' && !more then Scan(Code(-1), optind, None, chosen)
      else Scan(Threw(UnknownOption([c])), if more then optind else optind + 1, None, chosen)
    else
      var o := options[FirstShort(options, c)];
      if o.hasArg == NoArgument then
        Scan(Code(c as int), if more then optind else optind + 1, None, chosen)
      else if more then
        var v: CStr := place[p + 1..];
        Scan(Code(c as int), optind + 1, Some(v), chosen)
      else if o.hasArg == RequiredArgument then
        if optind + 1 >= argc then Scan(Threw(MissingArgument([c])), optind + 1, None, chosen)
        else Scan(Code(c as int), optind + 2, next, chosen)
      else if flags & NOPERMUTE != 0 && optind + 1 < argc then
        Scan(Code(c as int), optind + 2, next, chosen)
      else
        Scan(Code(c as int), optind + 1, None, chosen)
  }

  /** The shape of every outcome for a short option character: the chosen
      option is untouched; -1 only for a lone '-' that is not an option; a
      returned code is the character itself, found in the table; optind stays
      on the same argument only while characters remain in it, and advances
      by at most two. */
  lemma ShortStepFacts(options: seq<OptionSpec>, flags: bv32, place: CStr, p: nat,
                       optind: int, argc: int, chosen: Option<nat>, next: Option<CStr>)
    ensures var s := ShortStep(options, flags, place, p, optind, argc, chosen, next);
            s.chosenOption == chosen &&
            (s.outcome == Code(-1) <==> Ch(place, p) == '-' && Ch(place, p + 1) == NUL && FirstShort(options, '-') == |options|) &&
            (s.outcome.Code? && s.outcome.code != -1 ==>
               s.outcome.code == Ch(place, p) as int && FirstShort(options, Ch(place, p)) < |options| &&
               options[FirstShort(options, Ch(place, p))].shortName == Ch(place, p)) &&
            (s.optind == optind ==> Ch(place, p + 1) != NUL || s.outcome == Code(-1)) &&
            (s.optind == optind || s.optind == optind + 1 || s.optind == optind + 2)
  {
  }

  /** A short option without an argument inside a cluster such as "-ab" is
      returned without advancing optind; the next call reads the same
      argument from its second character again, so "b" is never reached. */
  lemma ClusterStays(options: seq<OptionSpec>, flags: bv32, place: CStr,
                     optind: int, argc: int, chosen: Option<nat>, next: Option<CStr>)
    requires Ch(place, 1) != ':' && Ch(place, 1) != '-' && Ch(place, 2) != NUL
    requires FirstShort(options, Ch(place, 1)) < |options|
    requires options[FirstShort(options, Ch(place, 1))].hasArg == NoArgument
    ensures ShortStep(options, flags, place, 1, optind, argc, chosen, next) ==
            Scan(Code(Ch(place, 1) as int), optind, None, chosen)
  {
  }

  /** A short option with a required argument takes the rest of its argument
      when characters follow it, and otherwise the next argv entry; at the
      end of argv it is an error. */
  lemma ShortRequiredValue(options: seq<OptionSpec>, flags: bv32, place: CStr, p: nat,
                           optind: int, argc: int, chosen: Option<nat>, next: Option<CStr>)
    requires Ch(place, p) != ':' && Ch(place, p) != '-' && FirstShort(options, Ch(place, p)) < |options|
    requires options[FirstShort(options, Ch(place, p))].hasArg == RequiredArgument
    ensures var s := ShortStep(options, flags, place, p, optind, argc, chosen, next);
            if Ch(place, p + 1) != NUL then s.optarg.Some? && s.optarg.value == place[p + 1..] && s.optind == optind + 1
            else if optind + 1 >= argc then s.outcome == Threw(MissingArgument([Ch(place, p)]))
            else s.optarg == next && s.optind == optind + 2
  {
  }

  /** How getopt_internal reads an argv entry. */
  datatype ArgKind =
    | NullEntry   // the null pointer that ends argv
    | Operand     // a non-option: no leading '-', or a lone "-" that is not an option
    | Terminator  // "--"
    | LongForm    // "--name..."
    | ShortForm   // "-c...", read as short option character c
    | OtherForm   // "-" as an option, "-W..." under WOPTIONS, or "-name..." under LONGONLY

  /** The tests getopt_internal applies to argv[optind], in its order. */
  function KindOf(a: Option<CStr>, options: seq<OptionSpec>, flags: bv32): ArgKind
  {
    if a.None? then NullEntry
    else if IsNonOption(a.value, options) then Operand
    else if Ch(a.value, 1) == '-' then (if Ch(a.value, 2) == NUL then Terminator else LongForm)
    else if Ch(a.value, 1) != NUL && flags & LONGONLY == 0 &&
            !(Ch(a.value, 1) == 'W' && flags & WOPTIONS != 0) then ShortForm
    else OtherForm
  }

  /** The character tests single out exactly the entry "--". */
  lemma TerminatorIff(a: Option<CStr>, options: seq<OptionSpec>, flags: bv32)
    ensures KindOf(a, options, flags) == Terminator <==> a.Some? && a.value == "--"
  {
    if KindOf(a, options, flags) == Terminator {
      assert a.value == "--";
    }
  }

  /** Every argv entry from index `from` up to argc is present (not a null
      pointer). */
  ghost predicate Present(args: seq<Option<CStr>>, from: int, argc: int)
  {
    forall k :: from <= k < argc && 0 <= k < |args| ==> args[k].Some?
  }

  /** The entries from index `from` up to `to` are non-options. */
  ghost predicate Skipped(args: seq<Option<CStr>>, from: int, to: int, options: seq<OptionSpec>)
  {
    forall k :: from <= k < to && 0 <= k < |args| ==> args[k].Some? && IsNonOption(args[k].value, options)
  }

  /** Exchanging a block that lies below argc keeps present what the scan
      still reads. */
  lemma ExchangePresent(args: seq<Option<CStr>>, start: nat, mid: nat, end: nat, argc: int)
    requires start <= mid < end <= |args| && mid <= argc
    requires Present(args, start, argc)
    ensures Present(Exchanged(args, start, mid, end), end - (mid - start), argc)
  {
    var r := Exchanged(args, start, mid, end);
    forall k | end - (mid - start) <= k < argc && 0 <= k < |r|
      ensures r[k].Some?
    {
      ExchangedAt(args, start, mid, end, k);
    }
  }

  /** Exchanging moves the skipped block [start, mid) to the top of [start, end). */
  lemma ExchangeSkipped(args: seq<Option<CStr>>, start: nat, mid: nat, end: nat, options: seq<OptionSpec>)
    requires start <= mid <= end <= |args|
    requires Skipped(args, start, mid, options)
    ensures Skipped(Exchanged(args, start, mid, end), end - (mid - start), end, options)
  {
    var r := Exchanged(args, start, mid, end);
    forall k | end - (mid - start) <= k < end && 0 <= k < |r|
      ensures r[k].Some? && IsNonOption(r[k].value, options)
    {
      ExchangedAt(args, start, mid, end, k);
    }
  }


  /** Everything getopt_internal reads and writes: argv, the fields of
      `result`, and the bounds of the block of skipped non-options (-1 when
      unset). */
  datatype Snapshot = Snapshot(args: seq<Option<CStr>>, optind: int, optarg: Option<CStr>,
                               chosen: Option<nat>, start: int, end: int)

  /** What one call gives back, and the state it leaves. */
  datatype Call = Call(outcome: Outcome, after: Snapshot)

  /** How the scan for the next option ended: with a result for the caller,
      or (stop is None) on an option. */
  datatype Scanned = Scanned(stop: Option<Outcome>, after: Snapshot)

  /** The state between scanning steps of getopt_internal: argv holds argc
      entries and the null terminator; either no non-options are pending, or
      non-options were skipped from start and (when end is set) options
      follow them from end up to optind. */
  ghost predicate Scanning(s: Snapshot, argc: int, options: seq<OptionSpec>)
  {
    |s.args| == argc + 1 && 0 <= s.optind <= argc + 1 &&
    ((s.start == -1 && s.end == -1) ||
     (s.end == -1 && 0 <= s.start < s.optind <= argc && Skipped(s.args, s.start, s.optind, options)) ||
     (0 <= s.start < s.end < argc && s.end <= s.optind && Skipped(s.args, s.start, s.end, options) &&
      (s.end == s.optind ==> s.args[s.end].Some? && !IsNonOption(s.args[s.end].value, options)))) &&
    Present(s.args, if s.start == -1 then s.optind else s.start, argc)
  }

  /** The state between calls: a pending block of non-options is always
      closed by end. */
  ghost predicate Valid(s: Snapshot, argc: int, options: seq<OptionSpec>)
  {
    Scanning(s, argc, options) && (s.start == -1 <==> s.end == -1)
  }

  /** optind is on an argument that is present, and argv holds its null
      terminator after argc. */
  ghost predicate OnArgument(s: Snapshot, argc: int)
  {
    |s.args| == argc + 1 && 0 <= s.optind < argc && Present(s.args, s.optind, argc)
  }

  /** The fields of `result` after one option has been parsed, with argv and
      the bookkeeping of skipped non-options left as they were. */
  function Apply(s: Snapshot, sc: Scan): (c: Call)
    ensures c.after.args == s.args && c.after.start == s.start && c.after.end == s.end
  {
    Call(sc.outcome, s.(optind := sc.optind, optarg := sc.optarg, chosen := sc.chosenOption))
  }

  /** The skipped non-options [start, end) exchanged with the options
      [end, optind) that followed them, optind left on the first of the
      non-options (permute_args and the update of optind after it). */
  function MoveStep(s: Snapshot): (t: Snapshot)
    requires s.end != -1 ==> 0 <= s.start <= s.end <= s.optind <= |s.args|
    ensures |t.args| == |s.args|
  {
    if s.end != -1 then
      s.(args := Exchanged(s.args, s.start, s.end, s.optind), optind := s.optind - (s.end - s.start))
    else s
  }

  /** The end of argv (getopt.h 377-392): skipped non-options are moved
      after the options, or optind is put back on the first of them, and
      the bookkeeping is reset. */
  function EndStep(s: Snapshot): Snapshot
    requires s.end != -1 ==> 0 <= s.start <= s.end <= s.optind <= |s.args|
  {
    var t := if s.end != -1 then MoveStep(s) else if s.start != -1 then s.(optind := s.start) else s;
    t.(start := -1, end := -1)
  }

  /** A non-option while permuting (getopt.h 411-422): it joins the block of
      skipped non-options, which is first moved past the options that
      followed it when there are any. */
  function SkipStep(s: Snapshot): Snapshot
    requires s.end != -1 ==> 0 <= s.start <= s.end <= s.optind <= |s.args|
  {
    var t := if s.start == -1 then s.(start := s.optind)
             else if s.end != -1 then
               s.(args := Exchanged(s.args, s.start, s.end, s.optind),
                  start := s.optind - (s.end - s.start), end := -1)
             else s;
    t.(optind := s.optind + 1)
  }

  /** The `start:` loop of getopt_internal (getopt.h 376-422): at the end of
      argv the scan ends; a non-option is returned under ALLARGS, ends the
      scan under NOPERMUTE, and is otherwise skipped; the scan stops on the
      first option. */
  function ScanFrom(s: Snapshot, argc: int, options: seq<OptionSpec>, flags: bv32): (r: Scanned)
    requires Scanning(s, argc, options)
    ensures r.stop.None? ==>
              Scanning(r.after, argc, options) && r.after.optind < argc && r.after.optarg == s.optarg &&
              r.after.args[r.after.optind].Some? && !IsNonOption(r.after.args[r.after.optind].value, options)
    decreases argc + 1 - s.optind
  {
    if s.optind >= argc then Scanned(Some(Code(-1)), EndStep(s))
    else if IsNonOption(s.args[s.optind].value, options) then
      if flags & ALLARGS != 0 then
        Scanned(Some(Code(INORDER)), s.(optarg := s.args[s.optind], optind := s.optind + 1))
      else if flags & NOPERMUTE != 0 then Scanned(Some(Code(-1)), s)
      else
        SkipKeepsScanning(s, argc, options);
        ScanFrom(SkipStep(s), argc, options, flags)
    else Scanned(None, s)
  }

  /** An option after skipped non-options closes their block
      (getopt.h 424-427). */
  function CloseStep(s: Snapshot, argc: int, options: seq<OptionSpec>): (t: Snapshot)
    requires Scanning(s, argc, options) && s.optind < argc
    requires s.args[s.optind].Some? && !IsNonOption(s.args[s.optind].value, options)
    ensures Valid(t, argc, options) && t.args == s.args && t.optind == s.optind
  {
    if s.start != -1 && s.end == -1 then s.(end := s.optind) else s
  }

  /** "--" (getopt.h 431-443): it is consumed, the skipped non-options are
      moved after it, and the bookkeeping is reset. */
  function DashStep(s: Snapshot): Snapshot
    requires s.end != -1 ==> 0 <= s.start <= s.end <= s.optind < |s.args|
  {
    MoveStep(s.(optind := s.optind + 1)).(start := -1, end := -1)
  }

  /** "-W long-option" with WOPTIONS set (getopt.h 471-487): the rest of the
      argument after 'W', or else the next argv entry, is parsed as a long
      option. */
  function WStep(s: Snapshot, place: CStr, p: nat, argc: int, options: seq<OptionSpec>, flags: bv32): Call
    requires OnArgument(s, argc)
  {
    if Ch(place, p + 1) != NUL then
      Apply(s, LongStep(options, flags, place[p + 1..], false, s.optind, s.optarg, s.chosen, s.args[s.optind + 1]))
    else if s.optind + 1 >= argc then
      Call(Threw(MissingArgument("W")), s.(optind := s.optind + 1))
    else
      Apply(s, LongStep(options, flags, s.args[s.optind + 1].value, false, s.optind + 1, s.optarg, s.chosen, s.args[s.optind + 2]))
  }

  /** An option argument other than "--" (getopt.h 445-544): "--name", or
      "-name" under LONGONLY, is first tried as a long option; failing that
      (only possible when the name could also be a short option), the
      character after '-' is a short option, or "-W" under WOPTIONS. */
  function NamedStep(s: Snapshot, argc: int, options: seq<OptionSpec>, flags: bv32): Call
    requires OnArgument(s, argc)
  {
    var place := s.args[s.optind].value;
    var next := s.args[s.optind + 1];
    var p := if Ch(place, 1) != NUL then 1 else 0;
    var tryLong := p == 1 && (Ch(place, 1) == '-' || flags & LONGONLY != 0);
    var shortToo := Ch(place, 1) != '-' &&
                    (Ch(place, 1) == 'W' || (Ch(place, 1) != ':' && FirstShort(options, Ch(place, 1)) < |options|));
    var long := if tryLong then
                  LongStep(options, flags, place[if Ch(place, 1) == '-' then 2 else 1..], shortToo,
                           s.optind, s.optarg, s.chosen, next)
                else Scan(Code(-1), s.optind, s.optarg, s.chosen);
    if long.outcome != Code(-1) then Apply(s, long)
    else if Ch(place, p) == 'W' && flags & WOPTIONS != 0 then WStep(s, place, p, argc, options, flags)
    else Apply(s, ShortStep(options, flags, place, p, s.optind, argc, s.chosen, next))
  }

  /** An option argument at optind (getopt.h 429-544): "--" ends the scan,
      anything else is a named option. */
  function OptionStep(s: Snapshot, argc: int, options: seq<OptionSpec>, flags: bv32): Call
    requires Valid(s, argc, options) && s.optind < argc
  {
    var place := s.args[s.optind].value;
    if Ch(place, 1) == '-' && Ch(place, 2) == NUL then Call(Code(-1), DashStep(s))
    else NamedStep(s, argc, options, flags)
  }

  /** `getopt_internal`: one whole call, from the state the caller passes. */
  function CallStep(s: Snapshot, argc: int, options: seq<OptionSpec>, flags: bv32): Call
    requires Valid(s, argc, options)
  {
    var sc := ScanFrom(s.(optarg := None), argc, options, flags);
    if sc.stop.Some? then Call(sc.stop.value, sc.after)
    else OptionStep(CloseStep(sc.after, argc, options), argc, options, flags)
  }

  /** Skipping a non-option keeps the scanning state: the block of skipped
      non-options grows by one and stays ahead of optind, argv is only
      permuted, and the block is left open. */
  lemma SkipKeepsScanning(s: Snapshot, argc: int, options: seq<OptionSpec>)
    requires Scanning(s, argc, options) && s.optind < argc
    requires s.args[s.optind].Some? && IsNonOption(s.args[s.optind].value, options)
    ensures var t := SkipStep(s);
            Scanning(t, argc, options) && t.end == -1 && t.start != -1 && t.optind == s.optind + 1 &&
            t.optarg == s.optarg && t.chosen == s.chosen
  {
    var t := SkipStep(s);
    if s.start == -1 {
      assert t == s.(start := s.optind, optind := s.optind + 1);
      SkippedExtend(t.args, s.optind, s.optind, options);
    } else if s.end != -1 {
      assert s.end < s.optind;
      var m := s.optind - (s.end - s.start);
      var args := Exchanged(s.args, s.start, s.end, s.optind);
      ExchangePresent(s.args, s.start, s.end, s.optind, argc);
      ExchangeSkipped(s.args, s.start, s.end, s.optind, options);
      ExchangedAt(s.args, s.start, s.end, s.optind, s.optind);
      assert t == s.(args := args, start := m, end := -1, optind := s.optind + 1);
      SkippedExtend(args, m, s.optind, options);
    } else {
      assert t == s.(optind := s.optind + 1);
      SkippedExtend(t.args, s.start, s.optind, options);
    }
  }

  lemma SkippedExtend(args: seq<Option<CStr>>, from: int, to: int, options: seq<OptionSpec>)
    requires Skipped(args, from, to, options) && 0 <= to < |args|
    requires args[to].Some? && IsNonOption(args[to].value, options)
    ensures Skipped(args, from, to + 1, options)
  {
  }

  /** At the end of argv the call ends in a valid state with every
      non-option gathered in argv[optind..argc), argv only permuted. */
  lemma EndKeepsValid(s: Snapshot, argc: int, options: seq<OptionSpec>)
    requires Scanning(s, argc, options) && s.optind >= argc
    ensures var t := EndStep(s);
            Valid(t, argc, options) && t.start == -1 && Skipped(t.args, t.optind, argc, options) &&
            t.optarg == s.optarg && t.chosen == s.chosen
  {
    var t := EndStep(s);
    if s.end != -1 {
      var args := Exchanged(s.args, s.start, s.end, s.optind);
      ExchangeSkipped(s.args, s.start, s.end, s.optind, options);
      assert t == s.(args := args, optind := s.optind - (s.end - s.start), start := -1, end := -1);
      assert Present(t.args, t.optind, argc);
    } else if s.start != -1 {
      assert t == s.(optind := s.start, start := -1, end := -1);
    } else {
      assert t == s;
    }
  }

  /** After "--" the call ends in a valid state, with "--" itself just
      before optind and argv only permuted. */
  lemma DashKeepsValid(s: Snapshot, argc: int, options: seq<OptionSpec>)
    requires Valid(s, argc, options) && s.optind < argc
    ensures var t := DashStep(s);
            Valid(t, argc, options) && 0 < t.optind && t.args[t.optind - 1] == s.args[s.optind] &&
            t.optarg == s.optarg && t.chosen == s.chosen
  {
    var t := DashStep(s);
    if s.end != -1 {
      var args := Exchanged(s.args, s.start, s.end, s.optind + 1);
      ExchangePresent(s.args, s.start, s.end, s.optind + 1, argc);
      ExchangedAt(s.args, s.start, s.end, s.optind + 1, s.optind - (s.end - s.start));
      assert t == s.(args := args, optind := s.optind + 1 - (s.end - s.start), start := -1, end := -1);
    } else {
      assert t == s.(optind := s.optind + 1);
    }
  }

  /** Moving optind forward (to at most argc + 1) with argv and the
      bookkeeping unchanged keeps the state valid. */
  lemma AdvanceKeepsValid(s: Snapshot, t: Snapshot, argc: int, options: seq<OptionSpec>)
    requires Valid(s, argc, options)
    requires t.args == s.args && t.start == s.start && t.end == s.end && s.optind <= t.optind <= argc + 1
    ensures Valid(t, argc, options)
  {
    if s.start == -1 {
      assert Present(t.args, t.optind, argc);
    }
  }

  /** A short name of some entry of the table. */
  ghost predicate IsShortName(options: seq<OptionSpec>, code: int)
  {
    exists k :: 0 <= k < |options| && options[k].shortName as int == code
  }

  /** "-W long-option" never returns -1, returns only short names from the
      table, and moves optind forward by at most three entries, to at most
      argc + 1. */
  lemma WStepAdvances(s: Snapshot, place: CStr, p: nat, argc: int, options: seq<OptionSpec>, flags: bv32)
    requires OnArgument(s, argc)
    ensures var c := WStep(s, place, p, argc, options, flags);
            c.after.args == s.args && c.after.start == s.start && c.after.end == s.end &&
            s.optind <= c.after.optind <= argc + 1 && c.outcome != Code(-1) &&
            (c.outcome.Code? ==> IsShortName(options, c.outcome.code))
  {
    var c := WStep(s, place, p, argc, options, flags);
    if Ch(place, p + 1) != NUL {
      var long := LongStep(options, flags, place[p + 1..], false, s.optind, s.optarg, s.chosen, s.args[s.optind + 1]);
      LongStepFacts(options, flags, place[p + 1..], false, s.optind, s.optarg, s.chosen, s.args[s.optind + 1]);
      assert c == Apply(s, long);
      if c.outcome.Code? {
        assert options[long.chosenOption.value].shortName as int == c.outcome.code;
      }
    } else if s.optind + 1 < argc {
      var arg := s.args[s.optind + 1].value;
      var long := LongStep(options, flags, arg, false, s.optind + 1, s.optarg, s.chosen, s.args[s.optind + 2]);
      LongStepFacts(options, flags, arg, false, s.optind + 1, s.optarg, s.chosen, s.args[s.optind + 2]);
      assert c == Apply(s, long);
      if c.outcome.Code? {
        assert options[long.chosenOption.value].shortName as int == c.outcome.code;
      }
    }
  }

  /** An option argument other than "--" leaves argv and the bookkeeping
      alone, never returns -1, returns only short names from the table, and
      moves optind forward to at most argc + 1. */
  lemma NamedAdvances(s: Snapshot, argc: int, options: seq<OptionSpec>, flags: bv32)
    requires OnArgument(s, argc) && !IsNonOption(s.args[s.optind].value, options)
    requires !(Ch(s.args[s.optind].value, 1) == '-' && Ch(s.args[s.optind].value, 2) == NUL)
    ensures var c := NamedStep(s, argc, options, flags);
            c.after.args == s.args && c.after.start == s.start && c.after.end == s.end &&
            s.optind <= c.after.optind <= argc + 1 && c.outcome != Code(-1) &&
            (c.outcome.Code? ==> IsShortName(options, c.outcome.code))
  {
    var place := s.args[s.optind].value;
    var next := s.args[s.optind + 1];
    var p := if Ch(place, 1) != NUL then 1 else 0;
    var c := NamedStep(s, argc, options, flags);
    var tryLong := p == 1 && (Ch(place, 1) == '-' || flags & LONGONLY != 0);
    var shortToo := Ch(place, 1) != '-' &&
                    (Ch(place, 1) == 'W' || (Ch(place, 1) != ':' && FirstShort(options, Ch(place, 1)) < |options|));
    if tryLong {
      var arg := place[if Ch(place, 1) == '-' then 2 else 1..];
      var long := LongStep(options, flags, arg, shortToo, s.optind, s.optarg, s.chosen, next);
      LongStepFacts(options, flags, arg, shortToo, s.optind, s.optarg, s.chosen, next);
      if long.outcome != Code(-1) {
        assert c == Apply(s, long);
        if c.outcome.Code? {
          assert options[long.chosenOption.value].shortName as int == c.outcome.code;
        }
        return;
      }
    }
    if Ch(place, p) == 'W' && flags & WOPTIONS != 0 {
      assert c == WStep(s, place, p, argc, options, flags);
      WStepAdvances(s, place, p, argc, options, flags);
    } else {
      var sc := ShortStep(options, flags, place, p, s.optind, argc, s.chosen, next);
      ShortStepFacts(options, flags, place, p, s.optind, argc, s.chosen, next);
      assert c == Apply(s, sc);
      if c.outcome.Code? {
        assert options[FirstShort(options, Ch(place, p))].shortName as int == c.outcome.code;
      }
    }
  }

  /** The scan ends in a valid state with 1 (INORDER) or -1, or stops on an
      option.  After -1 without NOPERMUTE, argv[optind..argc) holds only
      non-options. */
  lemma {:induction false} ScanFromFacts(s: Snapshot, argc: int, options: seq<OptionSpec>, flags: bv32)
    requires Scanning(s, argc, options)
    requires Valid(s, argc, options) || (flags & ALLARGS == 0 && flags & NOPERMUTE == 0)
    ensures var r := ScanFrom(s, argc, options, flags);
            r.after.chosen == s.chosen &&
            (r.stop.Some? ==>
               Valid(r.after, argc, options) && (r.stop.value == Code(-1) || r.stop.value == Code(INORDER)) &&
               (r.stop.value == Code(-1) ==> flags & NOPERMUTE != 0 || Skipped(r.after.args, r.after.optind, argc, options)))
    decreases argc + 1 - s.optind
  {
    if s.optind >= argc {
      EndKeepsValid(s, argc, options);
    } else if IsNonOption(s.args[s.optind].value, options) && flags & ALLARGS == 0 && flags & NOPERMUTE == 0 {
      SkipKeepsScanning(s, argc, options);
      ScanFromFacts(SkipStep(s), argc, options, flags);
    }
  }

  /** Moving the skipped block and skipping a non-option only permute argv. */
  lemma StepsPermute(s: Snapshot)
    requires s.end != -1 ==> 0 <= s.start <= s.end <= s.optind <= |s.args|
    ensures multiset(MoveStep(s).args) == multiset(s.args)
    ensures multiset(SkipStep(s).args) == multiset(s.args)
  {
    if s.end != -1 {
      ExchangedPermutes(s.args, s.start, s.end, s.optind);
    }
  }

  /** The scan only permutes argv. */
  lemma {:induction false} ScanPermutes(s: Snapshot, argc: int, options: seq<OptionSpec>, flags: bv32)
    requires Scanning(s, argc, options)
    ensures multiset(ScanFrom(s, argc, options, flags).after.args) == multiset(s.args)
    decreases argc + 1 - s.optind
  {
    StepsPermute(s);
    if s.optind < argc && IsNonOption(s.args[s.optind].value, options) &&
       flags & ALLARGS == 0 && flags & NOPERMUTE == 0 {
      SkipKeepsScanning(s, argc, options);
      ScanPermutes(SkipStep(s), argc, options, flags);
    }
  }

  /** An option argument keeps the state valid and only permutes argv; it
      returns -1 only for "--", which is then just before optind, and any
      other code is the short name of an entry of the table. */
  lemma OptionFacts(t: Snapshot, argc: int, options: seq<OptionSpec>, flags: bv32)
    requires Valid(t, argc, options) && t.optind < argc && t.optarg == None
    requires !IsNonOption(t.args[t.optind].value, options)
    ensures var c := OptionStep(t, argc, options, flags);
            Valid(c.after, argc, options) && multiset(c.after.args) == multiset(t.args) &&
            (c.outcome == Code(-1) ==>
               0 < c.after.optind && c.after.args[c.after.optind - 1].Some? && c.after.args[c.after.optind - 1].value == "--") &&
            (c.outcome.Code? && c.outcome.code != -1 ==> IsShortName(options, c.outcome.code))
  {
    var place := t.args[t.optind].value;
    if Ch(place, 1) == '-' && Ch(place, 2) == NUL {
      IsDashDash(place);
      assert OptionStep(t, argc, options, flags) == Call(Code(-1), DashStep(t));
      DashFacts(t, argc, options);
      DashPermutes(t);
    } else {
      NamedFacts(t, argc, options, flags);
    }
  }

  lemma DashFacts(t: Snapshot, argc: int, options: seq<OptionSpec>)
    requires Valid(t, argc, options) && t.optind < argc
    requires t.args[t.optind].Some? && t.args[t.optind].value == "--"
    ensures var d := DashStep(t);
            Valid(d, argc, options) &&
            0 < d.optind && d.args[d.optind - 1].Some? && d.args[d.optind - 1].value == "--"
  {
    DashKeepsValid(t, argc, options);
  }

  lemma DashPermutes(t: Snapshot)
    requires t.end != -1 ==> 0 <= t.start <= t.end <= t.optind < |t.args|
    ensures multiset(DashStep(t).args) == multiset(t.args)
  {
    var u := t.(optind := t.optind + 1);
    StepsPermute(u);
    assert DashStep(t).args == MoveStep(u).args;
  }

  lemma IsDashDash(place: CStr)
    requires Ch(place, 0) == '-' && Ch(place, 1) == '-' && Ch(place, 2) == NUL
    ensures place == "--"
  {
    assert place == [place[0], place[1]];
  }

  lemma NamedFacts(t: Snapshot, argc: int, options: seq<OptionSpec>, flags: bv32)
    requires Valid(t, argc, options) && t.optind < argc && t.optarg == None
    requires !IsNonOption(t.args[t.optind].value, options)
    requires !(Ch(t.args[t.optind].value, 1) == '-' && Ch(t.args[t.optind].value, 2) == NUL)
    ensures var c := OptionStep(t, argc, options, flags);
            Valid(c.after, argc, options) && c.after.args == t.args && c.outcome != Code(-1) &&
            (c.outcome.Code? ==> IsShortName(options, c.outcome.code))
  {
    var c := NamedStep(t, argc, options, flags);
    NamedAdvances(t, argc, options, flags);
    AdvanceKeepsValid(t, c.after, argc, options);
  }

  /** Every call keeps the state valid and only permutes argv: no entry is
      lost, duplicated or invented.  It returns -1 only when the operands
      are argv[optind..argc) (all non-options, or whatever follows "--") or
      when NOPERMUTE stopped the scan; any other code is INORDER or the short
      name of an entry of the table. */
  lemma CallKeepsValid(s: Snapshot, argc: int, options: seq<OptionSpec>, flags: bv32)
    requires Valid(s, argc, options)
    ensures var c := CallStep(s, argc, options, flags);
            Valid(c.after, argc, options) && multiset(c.after.args) == multiset(s.args) &&
            (c.outcome == Code(-1) ==>
               flags & NOPERMUTE != 0 || Skipped(c.after.args, c.after.optind, argc, options) ||
               (0 < c.after.optind && c.after.args[c.after.optind - 1].Some? && c.after.args[c.after.optind - 1].value == "--")) &&
            (c.outcome.Code? && c.outcome.code != -1 && c.outcome.code != INORDER ==>
               IsShortName(options, c.outcome.code))
  {
    var c := CallStep(s, argc, options, flags);
    var s0 := s.(optarg := None);
    ScanFromFacts(s0, argc, options, flags);
    ScanPermutes(s0, argc, options, flags);
    var sc := ScanFrom(s0, argc, options, flags);
    if sc.stop.Some? {
      assert c == Call(sc.stop.value, sc.after);
    } else {
      var t := CloseStep(sc.after, argc, options);
      assert c == OptionStep(t, argc, options, flags);
      OptionFacts(t, argc, options, flags);
    }
  }

  /** At the end of argv a call returns -1 and does what EndStep states. */
  lemma CallAtEnd(s: Snapshot, argc: int, options: seq<OptionSpec>, flags: bv32)
    requires Valid(s, argc, options) && s.optind >= argc
    ensures CallStep(s, argc, options, flags) == Call(Code(-1), EndStep(s.(optarg := None)))
  {
  }

  /** Under ALLARGS a non-option is returned as the argument of option 1
      (INORDER) and optind moves past it; nothing else changes. */
  lemma CallInOrder(s: Snapshot, argc: int, options: seq<OptionSpec>, flags: bv32)
    requires Valid(s, argc, options) && s.optind < argc && flags & ALLARGS != 0
    requires IsNonOption(s.args[s.optind].value, options)
    ensures CallStep(s, argc, options, flags) ==
            Call(Code(INORDER), s.(optarg := s.args[s.optind], optind := s.optind + 1))
  {
  }

  /** Under NOPERMUTE (without ALLARGS) a non-option ends the parse: -1,
      with optind still on it and argv untouched. */
  lemma CallStopsAtOperand(s: Snapshot, argc: int, options: seq<OptionSpec>, flags: bv32)
    requires Valid(s, argc, options) && s.optind < argc && flags & ALLARGS == 0 && flags & NOPERMUTE != 0
    requires IsNonOption(s.args[s.optind].value, options)
    ensures CallStep(s, argc, options, flags) == Call(Code(-1), s.(optarg := None))
  {
  }

  /** "--" ends the parse: -1, with optind just past it and the skipped
      non-options moved after it. */
  lemma CallAtTerminator(s: Snapshot, argc: int, options: seq<OptionSpec>, flags: bv32)
    requires Valid(s, argc, options) && s.optind < argc && s.args[s.optind].Some? && s.args[s.optind].value == "--"
    ensures CallStep(s, argc, options, flags) == Call(Code(-1), DashStep(s.(optarg := None)))
  {
  }

  /** "-c..." (without LONGONLY, and other than "-W" under WOPTIONS) is the
      short option character c, as ShortStep states. */
  lemma CallShort(s: Snapshot, argc: int, options: seq<OptionSpec>, flags: bv32)
    requires Valid(s, argc, options) && s.optind < argc
    requires KindOf(s.args[s.optind], options, flags) == ShortForm
    ensures var s0 := s.(optarg := None);
            CallStep(s, argc, options, flags) ==
            Apply(s0, ShortStep(options, flags, s.args[s.optind].value, 1, s.optind, argc, s.chosen, s.args[s.optind + 1]))
  {
  }

  /** "--name[=value]" is parsed as a long option, as LongStep states. */
  lemma CallLong(s: Snapshot, argc: int, options: seq<OptionSpec>, flags: bv32)
    requires Valid(s, argc, options) && s.optind < argc
    requires KindOf(s.args[s.optind], options, flags) == LongForm
    ensures var s0 := s.(optarg := None);
            CallStep(s, argc, options, flags) ==
            Apply(s0, LongStep(options, flags, s.args[s.optind].value[2..], false, s.optind, None, s.chosen, s.args[s.optind + 1]))
  {
    LongStepFacts(options, flags, s.args[s.optind].value[2..], false, s.optind, None, s.chosen, s.args[s.optind + 1]);
  }

  /** The state the constructors build (optind 1, no option chosen, no
      block of non-options pending) is valid for every argv whose argc
      entries after the program name are present, so the first call may be
      made on it. */
  lemma FreshIsValid(args: seq<Option<CStr>>, argc: int, options: seq<OptionSpec>)
    requires |args| == argc + 1 && 0 <= argc && Present(args, 1, argc)
    ensures Valid(Snapshot(args, 1, None, None, -1, -1), argc, options)
  {
  }

  /** A required long argument missing at the end of argv under
      IGNORE_MISSING_ARGS: the first call returns 'f' and leaves optind at
      argc + 1, past the null terminator it took as the value; the next call
      then exchanges the skipped "x" with [2, argc + 1), which moves "x" past
      argc and the null terminator down to index 2. */
  lemma MissingValueAtEnd()
    ensures var options := [OptionSpec("foo", 'f', RequiredArgument)];
            var prog: CStr, x: CStr, foo: CStr := "prog", "x", "--foo";
            var args := [Some(prog), Some(x), Some(foo), None];
            var moved := [Some(prog), Some(foo), None, Some(x)];
            var first := Snapshot(args, 1, None, None, -1, -1);
            var second := Snapshot(args, 4, None, Some(0), 1, 2);
            Valid(first, 3, options) && Valid(second, 3, options) &&
            CallStep(first, 3, options, IGNORE_MISSING_ARGS) == Call(Code('f' as int), second) &&
            CallStep(second, 3, options, IGNORE_MISSING_ARGS) ==
              Call(Code(-1), Snapshot(moved, 3, None, Some(0), -1, -1))
  {
    var options := [OptionSpec("foo", 'f', RequiredArgument)];
    var prog: CStr, x: CStr, foo: CStr := "prog", "x", "--foo";
    var args := [Some(prog), Some(x), Some(foo), None];
    var first := Snapshot(args, 1, None, None, -1, -1);
    var second := Snapshot(args, 4, None, Some(0), 1, 2);
    // First call: "x" is skipped, "--foo" closes the block [1, 2) and takes
    // the null terminator as its value.
    assert IsNonOption(x, options) && !IsNonOption(foo, options);
    var skipped := first.(start := 1, optind := 2);
    assert SkipStep(first) == skipped;
    assert ScanFrom(first, 3, options, IGNORE_MISSING_ARGS) == Scanned(None, skipped);
    var closed := skipped.(end := 2);
    assert CloseStep(skipped, 3, options) == closed;
    assert foo[2..] == "foo" && LongName("foo") == "foo" && LongValue("foo") == None;
    assert FirstExact(options, "foo") == 0;
    assert LongMatch(options, "foo", false) == Match(0);
    RequiredGetsValue(options, IGNORE_MISSING_ARGS, "foo", false, 2, None, None, None, 0);
    assert LongStep(options, IGNORE_MISSING_ARGS, "foo", false, 2, None, None, None) ==
           Scan(Code('f' as int), 4, None, Some(0));
    assert CallStep(first, 3, options, IGNORE_MISSING_ARGS) == Call(Code('f' as int), second);
    // Second call: optind is past argc, so the block [1, 2) is exchanged
    // with [2, 4).
    CallAtEnd(second, 3, options, IGNORE_MISSING_ARGS);
    assert Exchanged(args, 1, 2, 4) == [Some(prog), Some(foo), None, Some(x)];
  }

  /** `getopt::result`: the state a caller threads through successive calls. */
  class Result {
    var chosenOption: Option<nat>
    var optind: int
    var optarg: Option<CStr>

    constructor()
      ensures optind == 1 && optarg == None && chosenOption == None
    {
      chosenOption := None;
      optind := 1;
      optarg := None;
    }
  }

  /** `getopt<T>`: the option table, the flags, and the bounds of the block of
      non-options skipped so far (-1 when there is none). */
  class Parser {
    var nonoptStart: int
    var nonoptEnd: int
    const flags: bv32
    const options: seq<OptionSpec>

    constructor(options: seq<OptionSpec>)
      ensures this.options == options && flags == 0
      ensures nonoptStart == -1 && nonoptEnd == -1
    {
      this.options := options;
      flags := 0;
      nonoptStart, nonoptEnd := -1, -1;
    }

    constructor WithFlags(options: seq<OptionSpec>, flags: bv32)
      ensures this.options == options && this.flags == flags
      ensures nonoptStart == -1 && nonoptEnd == -1
    {
      this.options := options;
      this.flags := flags;
      nonoptStart, nonoptEnd := -1, -1;
    }

    /** The parser state as a value. */
    ghost function Snap(state: Result, argv: array<Option<CStr>>): Snapshot
      reads this, state, argv
    {
      Snapshot(argv[..], state.optind, state.optarg, state.chosenOption, nonoptStart, nonoptEnd)
    }

    /** `find_option`: the first entry with short name ch, or |options|. */
    method FindOption(ch: char) returns (r: nat)
      ensures r == FirstShort(options, ch)
    {
      r := 0;
      while r < |options|
        invariant r <= |options|
        invariant forall k :: 0 <= k < r ==> options[k].shortName != ch
      {
        if options[r].shortName == ch {
          return;
        }
        r := r + 1;
      }
    }

    /** The search loop of parse_long_options: the first exact match ends it,
        a second partial match before that is ambiguous (the throw). */
    method FindLongMatch(name: string, shortToo: bool) returns (m: MatchResult)
      ensures m == LongMatch(options, name, shortToo)
    {
      ghost var e := FirstExact(options, name);
      ghost var ps: seq<nat> := [];
      var found: Option<nat> := None;
      var it := 0;
      while it < |options|
        invariant 0 <= it <= |options| && it <= e
        invariant ps == PartialsBelow(options, name, shortToo, it) && |ps| <= 1
        invariant found == (if |ps| == 0 then None else Some(ps[0]))
      {
        SearchStep(options, name, shortToo, it);
        var prefix := name <= options[it].longName;
        if prefix && |options[it].longName| == |name| {
          // exact match
          SearchExact(options, name, shortToo, it);
          return Match(it);
        }
        // a prefix that is not a single character while short options are also tried
        var partial := prefix && !(shortToo && |name| == 1);
        if partial && found.Some? {
          SearchAmbiguous(options, name, shortToo, it + 1);
          return Ambiguous;
        }
        if partial {
          found := Some(it);
          ps := ps + [it];
        }
        it := it + 1;
      }
      SearchExhausted(options, name, shortToo);
      m := if found.Some? then Match(found.value) else NoMatch;
    }

    /** `parse_long_options`: arg is the text after "--" (or after "-" for
        getopt_long_only, or after "-W"). */
    method ParseLongOptions(state: Result, argv: array<Option<CStr>>, arg: CStr, shortToo: bool)
      returns (r: Outcome)
      requires 0 <= state.optind < argv.Length - 1
      modifies state
      ensures Scan(r, state.optind, state.optarg, state.chosenOption) ==
              LongStep(options, flags, arg, shortToo, old(state.optind), old(state.optarg),
                       old(state.chosenOption), argv[old(state.optind) + 1])
    {
      state.optind := state.optind + 1;
      var len := EqualsIndex(arg);
      var hasEqual: Option<CStr> := None;
      if len < |arg| {
        var v: CStr := arg[len + 1..];
        hasEqual := Some(v);
      }
      var name := arg[..len];
      assert name == LongName(arg) && hasEqual == LongValue(arg);
      var found := FindLongMatch(name, shortToo);
      if found == Ambiguous {
        return Threw(AmbiguousOption(arg));
      }
      if found.Match? {
        MatchIsCandidate(options, name, shortToo, found.index);
        var m := options[found.index];
        if m.hasArg == NoArgument && hasEqual.Some? {
          return Threw(ExcessArgument(arg));
        }
        if m.hasArg == RequiredArgument || m.hasArg == OptionalArgument {
          if hasEqual.Some? {
            state.optarg := hasEqual;
          } else if m.hasArg == RequiredArgument {
            state.optarg := argv[state.optind];
            state.optind := state.optind + 1;
          }
        }
        if m.hasArg == RequiredArgument && state.optarg == None && flags & IGNORE_MISSING_ARGS == 0 {
          return Threw(MissingArgument(arg));
        }
        state.chosenOption := Some(found.index);
        return Code(m.shortName as int);
      }
      if shortToo {
        state.optind := state.optind - 1;
        return Code(-1);
      }
      return Threw(UnknownOption(arg));
    }

    /** The end of argv (getopt.h 377-392), as EndStep states. */
    method EndOfArgs(state: Result, argc: int, argv: array<Option<CStr>>) returns (r: Outcome)
      requires Scanning(Snap(state, argv), argc, options) && state.optind >= argc
      modifies this, state, argv
      ensures r == Code(-1) && Snap(state, argv) == EndStep(old(Snap(state, argv)))
    {
      if nonoptEnd != -1 {
        MoveSkipped(state, argv);
      } else if nonoptStart != -1 {
        state.optind := nonoptStart;
      }
      nonoptStart, nonoptEnd := -1, -1;
      r := Code(-1);
    }

    /** The block move at the end of argv and at "--" (getopt.h 379-385,
        436-441), as MoveStep states. */
    method MoveSkipped(state: Result, argv: array<Option<CStr>>)
      requires nonoptEnd != -1 ==> 0 <= nonoptStart <= nonoptEnd < state.optind <= argv.Length
      modifies state, argv
      ensures Snap(state, argv) == MoveStep(old(Snap(state, argv)))
    {
      if nonoptEnd != -1 {
        PermuteArgs(nonoptStart, nonoptEnd, state.optind, argv);
        state.optind := state.optind - (nonoptEnd - nonoptStart);
      }
    }

    /** A non-option while permuting (getopt.h 411-422), as SkipStep states. */
    method SkipNonOption(state: Result, argc: int, argv: array<Option<CStr>>)
      requires nonoptEnd != -1 ==> 0 <= nonoptStart <= nonoptEnd < state.optind <= argv.Length
      modifies this, state, argv
      ensures Snap(state, argv) == SkipStep(old(Snap(state, argv)))
    {
      if nonoptStart == -1 {
        nonoptStart := state.optind;
      } else if nonoptEnd != -1 {
        PermuteArgs(nonoptStart, nonoptEnd, state.optind, argv);
        nonoptStart := state.optind - (nonoptEnd - nonoptStart);
        nonoptEnd := -1;
      }
      state.optind := state.optind + 1;
    }

    /** "--" (getopt.h 431-443), as DashStep states. */
    method DoubleDash(state: Result, argc: int, argv: array<Option<CStr>>) returns (r: Outcome)
      requires nonoptEnd != -1 ==> 0 <= nonoptStart <= nonoptEnd <= state.optind < argv.Length
      modifies this, state, argv
      ensures r == Code(-1) && Snap(state, argv) == DashStep(old(Snap(state, argv)))
    {
      ghost var s0 := Snap(state, argv);
      state.optind := state.optind + 1;
      assert Snap(state, argv) == s0.(optind := s0.optind + 1);
      MoveSkipped(state, argv);
      ghost var s1 := Snap(state, argv);
      nonoptStart, nonoptEnd := -1, -1;
      assert Snap(state, argv) == s1.(start := -1, end := -1);
      r := Code(-1);
    }

    /** "-W long-option" with WOPTIONS set (getopt.h 471-487), as WStep
        states. */
    method WOption(state: Result, argc: int, argv: array<Option<CStr>>, place: CStr, p: nat)
      returns (r: Outcome)
      requires OnArgument(Snap(state, argv), argc) && argv[state.optind] == Some(place)
      modifies state
      ensures Call(r, Snap(state, argv)) == WStep(old(Snap(state, argv)), place, p, argc, options, flags)
    {
      var longArg: CStr;
      if Ch(place, p + 1) != NUL {
        longArg := place[p + 1..];
      } else {
        state.optind := state.optind + 1;
        if state.optind >= argc {
          return Threw(MissingArgument("W"));
        }
        longArg := argv[state.optind].value;
      }
      r := ParseLongOptions(state, argv, longArg, false);
    }

    /** A short option character other than "-W" (getopt.h 489-544), as
        ShortStep states. */
    method ShortChar(state: Result, argc: int, argv: array<Option<CStr>>, place: CStr, p: nat)
      returns (r: Outcome)
      requires argv.Length == argc + 1 && 0 <= state.optind < argc && state.optarg == None
      modifies state
      ensures Call(r, Snap(state, argv)) ==
              Apply(old(Snap(state, argv)),
                    ShortStep(options, flags, place, p, old(state.optind), argc, old(state.chosenOption),
                              argv[old(state.optind) + 1]))
    {
      var optchar := Ch(place, p);
      var oli := FindOption(optchar);
      var more := Ch(place, p + 1) != NUL;
      if optchar == ':' || (optchar == '-' && more) || oli == |options| {
        if optchar == '-' && !more {
          return Code(-1);
        }
        if !more {
          state.optind := state.optind + 1;
        }
        return Threw(UnknownOption([optchar]));
      }
      if options[oli].hasArg == NoArgument {
        if !more {
          state.optind := state.optind + 1;
        }
      } else {
        state.optarg := None;
        if more {
          var v: CStr := place[p + 1..];
          state.optarg := Some(v);
        } else if options[oli].hasArg != OptionalArgument {
          state.optind := state.optind + 1;
          if state.optind >= argc {
            return Threw(MissingArgument([optchar]));
          }
          state.optarg := argv[state.optind];
        } else if flags & NOPERMUTE != 0 {
          if state.optind + 1 < argc {
            state.optind := state.optind + 1;
            state.optarg := argv[state.optind];
          }
        }
        state.optind := state.optind + 1;
      }
      return Code(optchar as int);
    }

    /** An option argument other than "--" (getopt.h 445-544), as NamedStep
        states. */
    method NamedOption(state: Result, argc: int, argv: array<Option<CStr>>, place: CStr) returns (r: Outcome)
      requires OnArgument(Snap(state, argv), argc) && argv[state.optind] == Some(place) && state.optarg == None
      modifies state
      ensures Call(r, Snap(state, argv)) == NamedStep(old(Snap(state, argv)), argc, options, flags)
    {
      ghost var s0 := Snap(state, argv);
      var p := if Ch(place, 1) != NUL then 1 else 0;
      if p == 1 && (Ch(place, 1) == '-' || flags & LONGONLY != 0) {
        var shortToo := false;
        var q := 1;
        if Ch(place, 1) == '-' {
          q := 2;
        } else if Ch(place, 1) == 'W' {
          shortToo := true;
        } else if Ch(place, 1) != ':' {
          var k := FindOption(Ch(place, 1));
          shortToo := k != |options|;
        }
        r := ParseLongOptions(state, argv, place[q..], shortToo);
        ghost var long := LongStep(options, flags, place[q..], shortToo, s0.optind, s0.optarg, s0.chosen, s0.args[s0.optind + 1]);
        assert Scan(r, state.optind, state.optarg, state.chosenOption) == long;
        if r != Code(-1) {
          assert NamedStep(s0, argc, options, flags) == Apply(s0, long);
          return;
        }
        LongStepFacts(options, flags, place[q..], shortToo, s0.optind, s0.optarg, s0.chosen, s0.args[s0.optind + 1]);
        assert Snap(state, argv) == s0;
      }
      if Ch(place, p) == 'W' && flags & WOPTIONS != 0 {
        assert NamedStep(s0, argc, options, flags) == WStep(s0, place, p, argc, options, flags);
        r := WOption(state, argc, argv, place, p);
      } else {
        assert NamedStep(s0, argc, options, flags) ==
               Apply(s0, ShortStep(options, flags, place, p, s0.optind, argc, s0.chosen, s0.args[s0.optind + 1]));
        r := ShortChar(state, argc, argv, place, p);
      }
    }

    /** An option argument at optind (getopt.h 429-544), as OptionStep
        states. */
    method OptionArgument(state: Result, argc: int, argv: array<Option<CStr>>) returns (r: Outcome)
      requires Valid(Snap(state, argv), argc, options) && state.optind < argc && state.optarg == None
      modifies this, state, argv
      ensures Call(r, Snap(state, argv)) == OptionStep(old(Snap(state, argv)), argc, options, flags)
    {
      var place := argv[state.optind].value;
      if Ch(place, 1) == '-' && Ch(place, 2) == NUL {
        r := DoubleDash(state, argc, argv);
      } else {
        r := NamedOption(state, argc, argv, place);
      }
    }

    /** The `start:` loop of getopt_internal (getopt.h 376-422), as ScanFrom
        states; finished is false when the scan stopped on an option. */
    method ScanToOption(state: Result, argc: int, argv: array<Option<CStr>>) returns (finished: bool, r: Outcome)
      requires Scanning(Snap(state, argv), argc, options)
      modifies this, state, argv
      ensures Scanned(if finished then Some(r) else None, Snap(state, argv)) ==
              ScanFrom(old(Snap(state, argv)), argc, options, flags)
    {
      while true
        invariant Scanning(Snap(state, argv), argc, options)
        invariant ScanFrom(Snap(state, argv), argc, options, flags) == ScanFrom(old(Snap(state, argv)), argc, options, flags)
        decreases argc + 1 - state.optind
      {
        if state.optind >= argc {
          r := EndOfArgs(state, argc, argv);
          return true, r;
        }
        var place := argv[state.optind].value;
        var dash := FindOption('-');
        if Ch(place, 0) != '-' || (Ch(place, 1) == NUL && dash == |options|) {
          if flags & ALLARGS != 0 {
            state.optarg := argv[state.optind];
            state.optind := state.optind + 1;
            return true, Code(INORDER);
          }
          if flags & NOPERMUTE != 0 {
            return true, Code(-1);
          }
          SkipKeepsScanning(Snap(state, argv), argc, options);
          SkipNonOption(state, argc, argv);
        } else {
          return false, Code(0);
        }
      }
    }

    /** An option after skipped non-options closes their block
        (getopt.h 424-427), as CloseStep states. */
    method CloseSkipped(state: Result, argc: int, argv: array<Option<CStr>>)
      requires Scanning(Snap(state, argv), argc, options) && state.optind < argc
      requires argv[state.optind].Some? && !IsNonOption(argv[state.optind].value, options)
      modifies this
      ensures Snap(state, argv) == CloseStep(old(Snap(state, argv)), argc, options)
    {
      if nonoptStart != -1 && nonoptEnd == -1 {
        nonoptEnd := state.optind;
      }
    }

    /** `getopt_internal`: one call, as CallStep states; the state stays
        valid. */
    method GetOptInternal(state: Result, argc: int, argv: array<Option<CStr>>) returns (r: Outcome)
      requires Valid(Snap(state, argv), argc, options)
      modifies this, state, argv
      ensures Call(r, Snap(state, argv)) == CallStep(old(Snap(state, argv)), argc, options, flags)
      ensures Valid(Snap(state, argv), argc, options)
    {
      CallKeepsValid(Snap(state, argv), argc, options, flags);
      state.optarg := None;
      var finished;
      finished, r := ScanToOption(state, argc, argv);
      if !finished {
        CloseSkipped(state, argc, argv);
        r := OptionArgument(state, argc, argv);
      }
    }

    /** `get_opt`, the public entry point. */
    method GetOpt(state: Result, argc: int, argv: array<Option<CStr>>) returns (r: Outcome)
      requires Valid(Snap(state, argv), argc, options)
      modifies this, state, argv
      ensures Call(r, Snap(state, argv)) == CallStep(old(Snap(state, argv)), argc, options, flags)
      ensures Valid(Snap(state, argv), argc, options)
      ensures multiset(argv[..]) == multiset(old(argv[..]))
    {
      CallKeepsValid(Snap(state, argv), argc, options, flags);
      r := GetOptInternal(state, argc, argv);
    }
  }


  /** One entry of the search for a long option: it matches exactly when it
      starts with name and is as long, and otherwise the first exact match
      lies further on. */
  lemma SearchStep(options: seq<OptionSpec>, name: string, shortToo: bool, it: nat)
    requires it < |options| && it <= FirstExact(options, name)
    ensures options[it].longName == name <==> name <= options[it].longName && |options[it].longName| == |name|
    ensures options[it].longName != name ==> it + 1 <= FirstExact(options, name)
    ensures PartialsBelow(options, name, shortToo, it + 1) ==
            PartialsBelow(options, name, shortToo, it) + (if Partial(name, options[it], shortToo) then [it] else [])
  {
  }

  /** The search stops at an exact match with at most one partial match
      before it. */
  lemma SearchExact(options: seq<OptionSpec>, name: string, shortToo: bool, it: nat)
    requires it < |options| && it <= FirstExact(options, name)
    requires name <= options[it].longName && |options[it].longName| == |name|
    requires |PartialsBelow(options, name, shortToo, it)| <= 1
    ensures LongMatch(options, name, shortToo) == Match(it)
  {
    SearchStep(options, name, shortToo, it);
    FirstExactIs(options, name, it);
  }

  /** Two partial matches before any exact match make the name ambiguous. */
  lemma SearchAmbiguous(options: seq<OptionSpec>, name: string, shortToo: bool, n: nat)
    requires n <= FirstExact(options, name) && |PartialsBelow(options, name, shortToo, n)| >= 2
    ensures LongMatch(options, name, shortToo) == Ambiguous
  {
    PartialsGrow(options, name, shortToo, n, FirstExact(options, name));
  }

  /** With no exact match, at most one partial match decides the outcome. */
  lemma SearchExhausted(options: seq<OptionSpec>, name: string, shortToo: bool)
    requires FirstExact(options, name) == |options| && |PartialsBelow(options, name, shortToo, |options|)| <= 1
    ensures LongMatch(options, name, shortToo) ==
            if |PartialsBelow(options, name, shortToo, |options|)| == 0 then NoMatch
            else Match(PartialsBelow(options, name, shortToo, |options|)[0])
  {
  }

  /** The partial matches below n are a prefix of those below m. */
  lemma {:induction false} PartialsGrow(options: seq<OptionSpec>, name: string, shortToo: bool, n: nat, m: nat)
    requires n <= m <= |options|
    ensures PartialsBelow(options, name, shortToo, n) <= PartialsBelow(options, name, shortToo, m)
    decreases m
  {
    if n < m {
      PartialsGrow(options, name, shortToo, n, m - 1);
    }
  }
}
