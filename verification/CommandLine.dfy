/** What `cli_match` makes of a command line when CLI_STRICT is set. */
module CommandLine {
  import opened Common
  import opened Ring
  import opened CliRegistry
  import opened CliOptions

  // -------- What a command line means --------

  /** An option seen on the command line, with its parsed argument if it takes one. */
  datatype Seen<+V> = Seen(id: string, arg: Option<V>)

  /** A word that names an option and the word after it, if that is its argument. */
  datatype Use<V> = Use(word: string, arg: Option<string>, node: Node<Opt<V>>)
  {
    function Words(): seq<string> {
      if arg.Some? then [word, arg.value] else [word]
    }

    ghost predicate Legal(v: Registry<V>) {
      && v.Lists(node) && Names(node.item, word) && INTERNAL !in node.item.flags
      && (arg.Some? <==> HAS_ARG in node.item.flags)
      && (arg.Some? ==> node.item.parser(arg.value).Some?)
    }

    function Meaning(): Seen<V> {
      Seen(node.item.id, if arg.Some? then node.item.parser(arg.value) else None)
    }
  }

  /** The word is `--` and the long name, or it starts with a dash and the short name, whatever comes after
      that. Two dashes always start a long name. */
  predicate Names<V>(o: Opt<V>, word: string) {
    if IsLong(word) then o.longName == Some(word[2..])
    else IsShort(word) && o.shortName != NO_SHORT_NAME && word[1] == o.shortName
  }

  predicate IsLong(word: string) {
    |word| >= 2 && word[0] == '-' && word[1] == '-'
  }

  predicate IsShort(word: string) {
    |word| >= 2 && word[0] == '-' && word[1] != '-'
  }

  /** The word makes the lookup read the slot of a removed option. */
  predicate ReadsStale(word: string, stale: set<char>) {
    IsShort(word) && word[1] in stale
  }

  /** The word makes the lookup read behind the short-name array. */
  predicate ReadsOutside(word: string) {
    IsShort(word) && word[1] as int >= UCHAR_MAX
  }

  function Render<V>(uses: seq<Use<V>>): seq<string> {
    if uses == [] then [] else uses[0].Words() + Render(uses[1..])
  }

  function Meanings<V>(uses: seq<Use<V>>): (r: seq<Seen<V>>)
    ensures |r| == |uses|
  {
    if uses == [] then [] else [uses[0].Meaning()] + Meanings(uses[1..])
  }

  predicate Has<V>(seen: seq<Seen<V>>, id: string) {
    exists i :: 0 <= i < |seen| && seen[i].id == id
  }

  predicate NoRepeats<V>(seen: seq<Seen<V>>) {
    forall i, j :: 0 <= i < j < |seen| ==> seen[i].id != seen[j].id
  }

  ghost predicate AllLegal<V>(v: Registry<V>, uses: seq<Use<V>>) {
    forall i :: 0 <= i < |uses| ==> uses[i].Legal(v)
  }

  /** The command line begins with `uses`, none of them repeated, and goes on with `rest`. */
  ghost predicate Reaches<V>(v: Registry<V>, argv: seq<string>, uses: seq<Use<V>>, rest: seq<string>) {
    argv == Render(uses) + rest && AllLegal(v, uses) && NoRepeats(Meanings(uses))
  }

  /** The command line splits into `uses`, none of them repeated. */
  ghost predicate Splits<V>(v: Registry<V>, argv: seq<string>, uses: seq<Use<V>>) {
    Reaches(v, argv, uses, [])
  }

  /** The next word names an internal option. */
  ghost predicate AsksForHelp<V>(v: Registry<V>, rest: seq<string>) {
    rest != [] && exists n :: n in v.optional + v.required && Names(n.item, rest[0]) && INTERNAL in n.item.flags
  }

  /** The next word names no option, or one whose argument is missing or does not parse, or one already
      seen. */
  ghost predicate IsRefused<V>(v: Registry<V>, stale: set<char>, rest: seq<string>, seen: seq<Seen<V>>) {
    && rest != [] && !ReadsStale(rest[0], stale) && !ReadsOutside(rest[0])
    && forall n :: n in v.optional + v.required && Names(n.item, rest[0]) ==>
         && INTERNAL !in n.item.flags
         && (Has(seen, n.item.id)
             || (HAS_ARG in n.item.flags && (|rest| < 2 || n.item.parser(rest[1]).None?)))
  }

  ghost predicate RequiredSeen<V>(v: Registry<V>, seen: seq<Seen<V>>) {
    forall n :: n in v.required ==> Has(seen, n.item.id)
  }

  /** After `uses` the command line is refused: by the next word, or at its end by a required option that is
      missing. */
  ghost predicate Refuses<V>(v: Registry<V>, stale: set<char>, argv: seq<string>, uses: seq<Use<V>>,
      rest: seq<string>) {
    && Reaches(v, argv, uses, rest)
    && if rest == [] then !RequiredSeen(v, Meanings(uses)) else IsRefused(v, stale, rest, Meanings(uses))
  }

  predicate AllWithArgument<V>(uses: seq<Use<V>>) {
    forall i :: 0 <= i < |uses| ==> uses[i].arg.Some?
  }

  // -------- What the loop computes --------

  /** What is undefined in C: a read of a destroyed node, a read behind the short-name array, or a call through
      the `data_free` that was never set, when a match that holds an option without argument is destroyed. */
  datatype Fault = DestroyedRead | OutsideRead | GarbageCall

  datatype Outcome<+V> = Matched(seen: seq<Seen<V>>) | Failed | Helped | Undefined(fault: Fault)

  datatype Found<V> = Missing | Known(node: Node<Opt<V>>) | Destroyed | Outside

  /** The lookup of one word in the tables. A slot that points to a node that is not listed points to a
      destroyed one. */
  ghost function Lookup<V>(v: Registry<V>, shorts: Shorts<V>, word: string): Found<V> {
    if IsLong(word) then (if word[2..] in v.longs then Known(v.longs[word[2..]]) else Missing)
    else if !IsShort(word) then Missing
    else if word[1] as int >= |shorts| then Outside
    else
      var n := shorts[word[1] as int];
      if n == null then Missing else if v.Lists(n) then Known(n) else Destroyed
  }

  /** What one pass of the loop does: go to `destroy_match`, run the help handler, which ends the process,
      run into undefined behaviour, or take an option and its argument. */
  datatype Step<+V> = Refuse | Exit | Break(fault: Fault) | Take(words: nat, entry: Seen<V>)

  ghost function StepOf<V>(v: Registry<V>, shorts: Shorts<V>, argv: seq<string>, seen: seq<Seen<V>>): (s: Step<V>)
    requires argv != []
    ensures s.Take? ==> 1 <= s.words <= |argv| && !Has(seen, s.entry.id)
    ensures s.Break? ==> !s.fault.GarbageCall?
  {
    match Lookup(v, shorts, argv[0])
    case Missing => Refuse
    case Destroyed => Break(DestroyedRead)
    case Outside => Break(OutsideRead)
    case Known(n) =>
      if INTERNAL in n.item.flags then Exit
      else if HAS_ARG !in n.item.flags then
        if Has(seen, n.item.id) then Refuse else Take(1, Seen(n.item.id, None))
      else if |argv| < 2 then Refuse
      else
        var value := n.item.parser(argv[1]);
        if value.None? || Has(seen, n.item.id) then Refuse else Take(2, Seen(n.item.id, value))
  }

  /** The match so far is destroyed. */
  function Refusal<V>(seen: seq<Seen<V>>): Outcome<V> {
    if Clean(seen) then Failed else Undefined(GarbageCall)
  }

  /** Every option in the match has an argument, and with it a `data_free` that was set. */
  predicate Clean<V>(seen: seq<Seen<V>>) {
    forall i :: 0 <= i < |seen| ==> seen[i].arg.Some?
  }

  /** The loop of `cli_match` from some word on, with `seen` in the match table. */
  ghost function Scan<V>(v: Registry<V>, shorts: Shorts<V>, argv: seq<string>, seen: seq<Seen<V>>): Outcome<V>
    decreases |argv|
  {
    if argv == [] then Matched(seen)
    else
      match StepOf(v, shorts, argv, seen)
      case Refuse => Refusal(seen)
      case Exit => Helped
      case Break(fault) => Undefined(fault)
      case Take(words, entry) => Scan(v, shorts, argv[words..], seen + [entry])
  }

  lemma ScanFrom<V>(v: Registry<V>, shorts: Shorts<V>, argv: seq<string>, i: nat, seen: seq<Seen<V>>)
    requires i <= |argv|
    ensures Scan(v, shorts, argv[i..], seen) ==
      if i == |argv| then Matched(seen)
      else match StepOf(v, shorts, argv[i..], seen)
        case Refuse => Refusal(seen)
        case Exit => Helped
        case Break(fault) => Undefined(fault)
        case Take(words, entry) => Scan(v, shorts, argv[i + words..], seen + [entry])
  {
    hide StepOf;
    if i < |argv| && StepOf(v, shorts, argv[i..], seen).Take? {
      var words := StepOf(v, shorts, argv[i..], seen).words;
      assert argv[i..][words..] == argv[i + words..];
    }
  }

  /** `cli_match` */
  ghost function MatchOf<V>(v: Registry<V>, shorts: Shorts<V>, argv: seq<string>): Outcome<V> {
    var out := Scan(v, shorts, argv, []);
    if out.Matched? && !RequiredSeen(v, out.seen) then Refusal(out.seen) else out
  }

  // -------- One word --------

  /** The lookup of any word finds exactly the listed option that it names; it finds a destroyed node exactly
      when the word reads a removed option's short name, and leaves the array exactly for a character behind
      its end. */
  lemma LookupFindsIff<V>(v: Registry<V>, shorts: Shorts<V>, stale: set<char>, word: string)
    requires v.Consistent() && ShortsOk(v, shorts, stale)
    ensures forall n :: v.Lists(n) && Names(n.item, word) <==> Lookup(v, shorts, word) == Known(n)
    ensures ReadsStale(word, stale) <==> Lookup(v, shorts, word) == Destroyed
    ensures ReadsOutside(word) <==> Lookup(v, shorts, word) == Outside
    ensures ReadsOutside(word) <==> |word| >= 2 && word[0] == '-' && word[1] != '-' && word[1] as int >= 255
  {
    if IsShort(word) && word[1] as int < UCHAR_MAX {
      assert Slot(word[1]);
    }
  }

  /** How a pass ends, in terms of the words. */
  lemma StepIff<V>(v: Registry<V>, shorts: Shorts<V>, stale: set<char>, rest: seq<string>, seen: seq<Seen<V>>)
    requires v.Consistent() && ShortsOk(v, shorts, stale) && rest != []
    ensures StepOf(v, shorts, rest, seen) == Exit <==> AsksForHelp(v, rest)
    ensures StepOf(v, shorts, rest, seen) == Break(DestroyedRead) <==> ReadsStale(rest[0], stale)
    ensures StepOf(v, shorts, rest, seen) == Break(OutsideRead) <==> ReadsOutside(rest[0])
    ensures StepOf(v, shorts, rest, seen) == Refuse <==> IsRefused(v, stale, rest, seen)
  {
    hide Registry.Consistent, ShortsOk, Names, Lookup, ReadsStale, ReadsOutside, Has;
    LookupFindsIff(v, shorts, stale, rest[0]);
  }

  // -------- Whole command lines --------

  lemma NoUses<V>()
    ensures Render<V>([]) == [] && Meanings<V>([]) == []
  {
  }

  lemma RenderOne<V>(u: Use<V>, rest: seq<Use<V>>)
    ensures Render([u] + rest) == u.Words() + Render(rest)
    ensures Meanings([u] + rest) == [u.Meaning()] + Meanings(rest)
  {
    assert ([u] + rest)[1..] == rest;
  }

  lemma NotSeen<V>(seen: seq<Seen<V>>, x: Seen<V>, rest: seq<Seen<V>>)
    requires NoRepeats(seen + [x] + rest)
    ensures !Has(seen, x.id)
  {
    var all := seen + [x] + rest;
    assert all[|seen|] == x;
    forall i | 0 <= i < |seen|
      ensures seen[i].id != x.id
    {
      assert all[i] == seen[i];
    }
  }

  /** A pass that goes on consumes one legal use. */
  lemma TakenUse<V>(v: Registry<V>, shorts: Shorts<V>, stale: set<char>, argv: seq<string>, seen: seq<Seen<V>>)
    returns (u: Use<V>)
    requires v.Consistent() && ShortsOk(v, shorts, stale)
    requires argv != [] && NoRepeats(seen) && StepOf(v, shorts, argv, seen).Take?
    ensures u.Legal(v) && NoRepeats(seen + [u.Meaning()])
    ensures u.Words() != [] && u.Words() <= argv
    ensures StepOf(v, shorts, argv, seen) == Take(|u.Words()|, u.Meaning())
  {
    hide Registry.Consistent, ShortsOk, Names, Lookup;
    LookupFindsIff(v, shorts, stale, argv[0]);
    var n := Lookup(v, shorts, argv[0]).node;
    u := Use(argv[0], if HAS_ARG in n.item.flags then Some(argv[1]) else None, n);
  }

  /** A legal use that was not seen before is taken. */
  lemma UseTaken<V>(v: Registry<V>, shorts: Shorts<V>, stale: set<char>, u: Use<V>, more: seq<string>,
      seen: seq<Seen<V>>)
    requires v.Consistent() && ShortsOk(v, shorts, stale)
    requires u.Legal(v) && !Has(seen, u.Meaning().id)
    ensures StepOf(v, shorts, u.Words() + more, seen) == Take(|u.Words()|, u.Meaning())
  {
    hide Registry.Consistent, ShortsOk, Names, Lookup;
    LookupFindsIff(v, shorts, stale, u.word);
  }

  /** Splitting off legal uses from the front does not change what the scan finds. */
  lemma {:induction false} ScanReached<V>(v: Registry<V>, shorts: Shorts<V>, stale: set<char>, uses: seq<Use<V>>,
      rest: seq<string>, seen: seq<Seen<V>>)
    requires v.Consistent() && ShortsOk(v, shorts, stale)
    requires AllLegal(v, uses) && NoRepeats(seen + Meanings(uses))
    ensures Scan(v, shorts, Render(uses) + rest, seen) == Scan(v, shorts, rest, seen + Meanings(uses))
    decreases |uses|
  {
    hide Registry.Consistent, ShortsOk, Use.Words, Use.Legal, Use.Meaning, StepOf, NoRepeats;
    if uses == [] {
      assert seen + Meanings(uses) == seen && Render(uses) + rest == rest;
      return;
    }
    var u, more := uses[0], uses[1..];
    assert uses == [u] + more;
    RenderOne(u, more);
    var argv := u.Words() + (Render(more) + rest);
    assert Render(uses) + rest == argv;
    assert seen + Meanings(uses) == seen + [u.Meaning()] + Meanings(more);
    NotSeen(seen, u.Meaning(), Meanings(more));
    UseTaken(v, shorts, stale, u, Render(more) + rest, seen);
    assert argv[|u.Words()|..] == Render(more) + rest;
    ScanReached(v, shorts, stale, more, rest, seen + [u.Meaning()]);
  }

  /** Every command line reaches its end or a word at which the scan stops. */
  lemma {:induction false} ScanStops<V>(v: Registry<V>, shorts: Shorts<V>, stale: set<char>, argv: seq<string>,
      seen: seq<Seen<V>>)
    returns (uses: seq<Use<V>>, rest: seq<string>)
    requires v.Consistent() && ShortsOk(v, shorts, stale) && NoRepeats(seen)
    ensures argv == Render(uses) + rest && AllLegal(v, uses) && NoRepeats(seen + Meanings(uses))
    ensures rest == [] || !StepOf(v, shorts, rest, seen + Meanings(uses)).Take?
    decreases |argv|
  {
    hide Registry.Consistent, ShortsOk, NoRepeats, Use.Words, Use.Legal, Use.Meaning, StepOf, Render, Meanings;
    if argv == [] || !StepOf(v, shorts, argv, seen).Take? {
      NoUses<V>();
      uses, rest := [], argv;
      assert seen + Meanings(uses) == seen;
      return;
    }
    var u := TakenUse(v, shorts, stale, argv, seen);
    uses, rest := ScanStops(v, shorts, stale, argv[|u.Words()|..], seen + [u.Meaning()]);
    RenderOne(u, uses);
    assert seen + [u.Meaning()] + Meanings(uses) == seen + Meanings([u] + uses);
    assert argv == u.Words() + argv[|u.Words()|..];
    uses := [u] + uses;
  }

  /** Where the command line stops decides what `cli_match` does. */
  lemma Decided<V>(v: Registry<V>, shorts: Shorts<V>, stale: set<char>, argv: seq<string>, uses: seq<Use<V>>,
      rest: seq<string>)
    requires v.Consistent() && ShortsOk(v, shorts, stale) && Reaches(v, argv, uses, rest)
    ensures Scan(v, shorts, argv, []) == Scan(v, shorts, rest, Meanings(uses))
    ensures rest == [] ==>
      MatchOf(v, shorts, argv)
        == if RequiredSeen(v, Meanings(uses)) then Matched(Meanings(uses)) else Refusal(Meanings(uses))
    ensures rest != [] && AsksForHelp(v, rest) ==> MatchOf(v, shorts, argv) == Helped
    ensures rest != [] && ReadsStale(rest[0], stale) ==> MatchOf(v, shorts, argv) == Undefined(DestroyedRead)
    ensures rest != [] && ReadsOutside(rest[0]) ==> MatchOf(v, shorts, argv) == Undefined(OutsideRead)
    ensures rest != [] && IsRefused(v, stale, rest, Meanings(uses)) ==>
      MatchOf(v, shorts, argv) == Refusal(Meanings(uses))
  {
    hide Registry.Consistent, ShortsOk, AllLegal, NoRepeats, RequiredSeen, StepOf, Clean;
    hide AsksForHelp, ReadsStale, ReadsOutside, IsRefused;
    assert [] + Meanings(uses) == Meanings(uses);
    ScanReached(v, shorts, stale, uses, rest, []);
    if rest != [] { StepIff(v, shorts, stale, rest, Meanings(uses)); }
  }

  /** One of the five things that can stop a command line does. */
  lemma Stops<V>(v: Registry<V>, shorts: Shorts<V>, stale: set<char>, argv: seq<string>)
    returns (uses: seq<Use<V>>, rest: seq<string>)
    requires v.Consistent() && ShortsOk(v, shorts, stale)
    ensures Reaches(v, argv, uses, rest)
    ensures rest == [] || AsksForHelp(v, rest) || ReadsStale(rest[0], stale) || ReadsOutside(rest[0])
         || IsRefused(v, stale, rest, Meanings(uses))
  {
    hide Registry.Consistent, ShortsOk, AllLegal, StepOf, AsksForHelp, ReadsStale, ReadsOutside, IsRefused;
    uses, rest := ScanStops(v, shorts, stale, argv, []);
    assert [] + Meanings(uses) == Meanings(uses);
    if rest != [] { StepIff(v, shorts, stale, rest, Meanings(uses)); }
  }

  /** `cli_match` succeeds exactly when the command line splits into known options without repeats, each
      followed by an argument that parses if it takes one, and every required option is there. What it
      returns is then what the splitting says. */
  lemma MatchedIff<V>(v: Registry<V>, shorts: Shorts<V>, stale: set<char>, argv: seq<string>, seen: seq<Seen<V>>)
    requires v.Consistent() && ShortsOk(v, shorts, stale)
    ensures MatchOf(v, shorts, argv) == Matched(seen)
       <==> exists uses :: Splits(v, argv, uses) && RequiredSeen(v, Meanings(uses)) && seen == Meanings(uses)
  {
    hide Registry.Consistent, ShortsOk, Reaches, RequiredSeen, Clean, Scan;
    hide AsksForHelp, ReadsStale, ReadsOutside, IsRefused, MatchOf;
    var stop, rest := Stops(v, shorts, stale, argv);
    Decided(v, shorts, stale, argv, stop, rest);
    forall uses | Splits(v, argv, uses) && RequiredSeen(v, Meanings(uses)) && seen == Meanings(uses)
      ensures MatchOf(v, shorts, argv) == Matched(seen)
    {
      Decided(v, shorts, stale, argv, uses, []);
    }
    if MatchOf(v, shorts, argv) == Matched(seen) {
      assert Splits(v, argv, stop);
    }
  }

  /** The help handler, which ends the process, runs exactly when a splittable beginning of the command line
      without repeats is followed by a word for an internal option. What comes after that word does not
      matter, nor do required options. */
  lemma HelpedIff<V>(v: Registry<V>, shorts: Shorts<V>, stale: set<char>, argv: seq<string>)
    requires v.Consistent() && ShortsOk(v, shorts, stale)
    ensures MatchOf(v, shorts, argv) == Helped
       <==> exists uses, rest :: Reaches(v, argv, uses, rest) && AsksForHelp(v, rest)
  {
    hide Registry.Consistent, ShortsOk, Reaches, RequiredSeen, Clean, Scan;
    hide AsksForHelp, ReadsStale, ReadsOutside, IsRefused, MatchOf;
    var stop, end := Stops(v, shorts, stale, argv);
    Decided(v, shorts, stale, argv, stop, end);
    forall uses, rest | Reaches(v, argv, uses, rest) && AsksForHelp(v, rest)
      ensures MatchOf(v, shorts, argv) == Helped
    {
      NotEmpty(v, rest);
      Decided(v, shorts, stale, argv, uses, rest);
    }
  }

  lemma NotEmpty<V>(v: Registry<V>, rest: seq<string>)
    requires AsksForHelp(v, rest)
    ensures rest != []
  {
  }

  /** `cli_match` reads a destroyed node exactly when a splittable beginning without repeats is followed by a
      word with the short name of a removed option, and behind its array exactly when it is followed by one
      with a character that has no slot. Arguments, and words behind a stop, are never looked up. */
  lemma WildReadIff<V>(v: Registry<V>, shorts: Shorts<V>, stale: set<char>, argv: seq<string>)
    requires v.Consistent() && ShortsOk(v, shorts, stale)
    ensures MatchOf(v, shorts, argv) == Undefined(DestroyedRead)
       <==> exists uses, rest :: Reaches(v, argv, uses, rest) && rest != [] && ReadsStale(rest[0], stale)
    ensures MatchOf(v, shorts, argv) == Undefined(OutsideRead)
       <==> exists uses, rest :: Reaches(v, argv, uses, rest) && rest != [] && ReadsOutside(rest[0])
  {
    hide Registry.Consistent, ShortsOk, Reaches, RequiredSeen, Clean, Scan;
    hide AsksForHelp, ReadsStale, ReadsOutside, IsRefused, MatchOf;
    var stop, end := Stops(v, shorts, stale, argv);
    Decided(v, shorts, stale, argv, stop, end);
    forall uses, rest | Reaches(v, argv, uses, rest) && rest != []
      ensures ReadsStale(rest[0], stale) ==> MatchOf(v, shorts, argv) == Undefined(DestroyedRead)
      ensures ReadsOutside(rest[0]) ==> MatchOf(v, shorts, argv) == Undefined(OutsideRead)
    {
      Decided(v, shorts, stale, argv, uses, rest);
    }
  }

  /** A refused command line fails cleanly exactly when every option before the refusal takes an argument.
      After one that does not, destroying the match calls through a pointer that was never set. */
  lemma FailedIff<V>(v: Registry<V>, shorts: Shorts<V>, stale: set<char>, argv: seq<string>)
    requires v.Consistent() && ShortsOk(v, shorts, stale)
    ensures MatchOf(v, shorts, argv) == Failed
       <==> exists uses, rest :: Refuses(v, stale, argv, uses, rest) && AllWithArgument(uses)
    ensures MatchOf(v, shorts, argv) == Undefined(GarbageCall)
       <==> exists uses, rest :: Refuses(v, stale, argv, uses, rest) && !AllWithArgument(uses)
  {
    hide Registry.Consistent, ShortsOk, RequiredSeen, Clean, Scan, AllWithArgument, AllLegal, NoRepeats, Render;
    hide AsksForHelp, ReadsStale, ReadsOutside, IsRefused, MatchOf;
    var stop, end := Stops(v, shorts, stale, argv);
    Decided(v, shorts, stale, argv, stop, end);
    CleanIff(v, stop);
    forall uses, rest | Refuses(v, stale, argv, uses, rest)
      ensures MatchOf(v, shorts, argv) == if AllWithArgument(uses) then Failed else Undefined(GarbageCall)
    {
      Decided(v, shorts, stale, argv, uses, rest);
      CleanIff(v, uses);
    }
    if MatchOf(v, shorts, argv) == Failed || MatchOf(v, shorts, argv) == Undefined(GarbageCall) {
      assert Refuses(v, stale, argv, stop, end);
    }
  }

  lemma {:induction false} MeaningAt<V>(uses: seq<Use<V>>, i: nat)
    requires i < |uses|
    ensures Meanings(uses)[i] == uses[i].Meaning()
  {
    if i > 0 { MeaningAt(uses[1..], i - 1); }
  }

  lemma CleanIff<V>(v: Registry<V>, uses: seq<Use<V>>)
    requires AllLegal(v, uses)
    ensures Clean(Meanings(uses)) <==> AllWithArgument(uses)
  {
    hide Meanings;
    forall i | 0 <= i < |uses|
      ensures Meanings(uses)[i].arg.Some? <==> uses[i].arg.Some?
    {
      MeaningAt(uses, i);
      assert uses[i].Legal(v);
    }
  }

  /** A command line splits in at most one way. */
  lemma {:induction false} SplitIsUnique<V>(v: Registry<V>, shorts: Shorts<V>, stale: set<char>, left: seq<Use<V>>,
      right: seq<Use<V>>)
    requires v.Consistent() && ShortsOk(v, shorts, stale)
    requires Render(left) == Render(right) && AllLegal(v, left) && AllLegal(v, right)
    ensures left == right
  {
    hide Registry.Consistent, ShortsOk, Names, Lookup;
    if left == [] {
      if right != [] { assert false; }
    } else if right == [] {
      assert false;
    } else {
      var l, r := left[0], right[0];
      assert Render(left)[0] == l.word && Render(right)[0] == r.word;
      LookupFindsIff(v, shorts, stale, l.word);
      assert l.Legal(v) && r.Legal(v);
      assert l.node == r.node;
      assert Render(left)[|l.Words()|..] == Render(left[1..]);
      assert Render(right)[|r.Words()|..] == Render(right[1..]);
      assert l.arg.Some? ==> Render(left)[1] == l.arg.value;
      assert r.arg.Some? ==> Render(right)[1] == r.arg.value;
      SplitIsUnique(v, shorts, stale, left[1..], right[1..]);
    }
  }

  // -------- Options and their words --------

  /** Two dashes and the long name, or one dash and the short name, whatever follows it. */
  predicate WordFor<V>(o: Opt<V>, word: string) {
    || (o.longName.Some? && word == "--" + o.longName.value)
    || (|word| >= 2 && word[..2] == ['-', o.shortName] && o.shortName != '-' && o.shortName != '\0')
  }

  lemma WordForIff<V>(o: Opt<V>, word: string)
    ensures Names(o, word) <==> WordFor(o, word)
  {
    if IsLong(word) { assert word == "--" + word[2..]; }
    if o.longName.Some? && word == "--" + o.longName.value {
      assert word[2..] == o.longName.value;
    }
    if |word| >= 2 { assert word[..2] == [word[0], word[1]]; }
  }

  lemma WordFinds<V>(v: Registry<V>, shorts: Shorts<V>, stale: set<char>, n: Node<Opt<V>>, word: string)
    requires v.Consistent() && ShortsOk(v, shorts, stale) && v.Lists(n) && WordFor(n.item, word)
    ensures Lookup(v, shorts, word) == Known(n)
  {
    hide Registry.Consistent, ShortsOk, Names, Lookup, WordFor;
    WordForIff(n.item, word);
    LookupFindsIff(v, shorts, stale, word);
  }

  /** An option with an argument, registered with just the fields that the caller passed: its word followed by an
      argument that parses gives its id and the parsed value, and nothing else may be required. Without the
      argument, with one that does not parse, and when it is repeated, the line is refused. */
  lemma OptionWithArgument<V>(v: Registry<V>, shorts: Shorts<V>, stale: set<char>, o: Spec<V>, n: Node<Opt<V>>,
      word: string, a: string, more: seq<string>)
    requires v.Consistent() && ShortsOk(v, shorts, stale) && v.Lists(n)
    requires o.id == Some(n.item.id) && n.item.longName == o.longName && n.item.shortName == o.shortName
    requires n.item.flags == o.flags && n.item.parser == o.parser
    requires HAS_ARG in o.flags && INTERNAL !in o.flags && WordFor(n.item, word)
    ensures MatchOf(v, shorts, [word, a]) ==
      if o.parser(a).Some? && (forall m :: m in v.required ==> m.item.id == o.id.value)
      then Matched([Seen(o.id.value, o.parser(a))]) else Failed
    ensures MatchOf(v, shorts, [word]) == Failed
    ensures MatchOf(v, shorts, [word, a, word] + more) == Failed
  {
    hide Registry.Consistent, ShortsOk, Lookup, WordFor, RequiredSeen;
    WordFinds(v, shorts, stale, n, word);
    var seen: seq<Seen<V>> := [Seen(o.id.value, o.parser(a))];
    assert [word, a][2..] == [] && ([word, a, word] + more)[2..] == [word] + more;
    assert ([word, a, word] + more)[0] == word && ([word, a, word] + more)[1] == a && ([word] + more)[0] == word;
    assert [] + seen == seen && seen[0].id == n.item.id;
    assert !Has<V>([], n.item.id) && Has(seen, n.item.id);
    OnlyRequired(v, seen);
    assert Scan(v, shorts, [], seen) == Matched(seen);
    if o.parser(a).Some? {
      var step := Take(2, Seen(o.id.value, o.parser(a)));
      assert StepOf(v, shorts, [word, a], []) == step;
      assert StepOf(v, shorts, [word, a, word] + more, []) == step;
      assert Scan(v, shorts, [word, a], []) == Matched(seen);
      assert StepOf(v, shorts, [word] + more, seen) == Refuse && Clean(seen);
      assert Scan(v, shorts, [word] + more, seen) == Failed;
      assert Scan(v, shorts, [word, a, word] + more, []) == Scan(v, shorts, [word] + more, [] + seen);
    }
  }

  lemma OnlyRequired<V>(v: Registry<V>, seen: seq<Seen<V>>)
    requires |seen| == 1
    ensures RequiredSeen(v, seen) <==> forall m :: m in v.required ==> m.item.id == seen[0].id
  {
  }

  /** An option without argument: its word alone gives its id, and nothing else may be required; the next word is
      looked up as an option. */
  lemma OptionWithoutArgument<V>(v: Registry<V>, shorts: Shorts<V>, stale: set<char>, o: Spec<V>, n: Node<Opt<V>>,
      word: string, more: seq<string>)
    requires v.Consistent() && ShortsOk(v, shorts, stale) && v.Lists(n)
    requires o.id == Some(n.item.id) && n.item.flags == o.flags
    requires HAS_ARG !in o.flags && INTERNAL !in o.flags && WordFor(n.item, word)
    ensures Scan(v, shorts, [word] + more, []) == Scan(v, shorts, more, [Seen(o.id.value, None)])
    ensures MatchOf(v, shorts, [word]) ==
      if forall m :: m in v.required ==> m.item.id == o.id.value
      then Matched([Seen(o.id.value, None)]) else Undefined(GarbageCall)
  {
    hide Registry.Consistent, ShortsOk, Lookup, WordFor, RequiredSeen;
    WordFinds(v, shorts, stale, n, word);
    var seen: seq<Seen<V>> := [Seen(o.id.value, None)];
    assert ([word] + more)[1..] == more && [word][1..] == [] && [] + seen == seen;
    OnlyRequired(v, seen);
    assert !Has<V>([], n.item.id);
    assert Scan(v, shorts, [], seen) == Matched(seen);
    assert StepOf(v, shorts, [word], []) == Take(1, seen[0]);
    assert seen[0].arg.None? && !Clean(seen);
  }

  /** A word for an internal option ends the process at once, whatever follows. */
  lemma InternalOption<V>(v: Registry<V>, shorts: Shorts<V>, stale: set<char>, n: Node<Opt<V>>, word: string,
      more: seq<string>)
    requires v.Consistent() && ShortsOk(v, shorts, stale) && v.Lists(n)
    requires INTERNAL in n.item.flags && WordFor(n.item, word)
    ensures MatchOf(v, shorts, [word] + more) == Helped
  {
    hide Registry.Consistent, ShortsOk, Lookup, WordFor;
    WordFinds(v, shorts, stale, n, word);
  }

  /** The empty command line matches exactly when nothing is required. */
  lemma EmptyLine<V>(v: Registry<V>, shorts: Shorts<V>)
    ensures MatchOf(v, shorts, []) == if v.required == [] then Matched([]) else Failed
  {
    if v.required != [] { assert v.required[0] in v.required && !Has<V>([], v.required[0].item.id); }
  }

  // -------- Where it goes wrong --------

  /** After the removal of an option `-v` its word reads the destroyed node. */
  lemma DestroyedReadExample<V>(n: Node<Opt<V>>)
    ensures var shorts: Shorts<V> := seq(UCHAR_MAX, i => if i == 'v' as int then n else null);
      var v: Registry<V> := Registry([], [], map[], map[]);
      v.Consistent() && ShortsOk(v, shorts, {'v'}) && MatchOf(v, shorts, ["-v"]) == Undefined(DestroyedRead)
  {
    var shorts: Shorts<V> := seq(UCHAR_MAX, i => if i == 'v' as int then n else null);
    assert Slot('v') && shorts['v' as int] == n;
  }

  lemma ListedOnly<V>(v: Registry<V>, shorts: Shorts<V>, n: Node<Opt<V>>)
    requires v == Registry([n], [], map[n.item.id := n], map[]) && |shorts| == UCHAR_MAX
    requires n.item.longName.None? && REQUIRED !in n.item.flags && n.item.shortName != NO_SHORT_NAME
    requires Slot(n.item.shortName)
    requires forall i :: 0 <= i < UCHAR_MAX ==> shorts[i] == if i == n.item.shortName as int then n else null
    ensures v.Consistent() && ShortsOk(v, shorts, {})
  {
    assert n in v.optional;
    assert forall m :: m in v.optional + v.required <==> m == n;
  }

  /** An option `-v` without argument and then a word that is refused: destroying the match calls through a
      pointer that was never set. */
  lemma GarbageCallExample<V>(n: Node<Opt<V>>)
    requires n.item == Opt("verbose", None, 'v', {}, n.item.parser)
    ensures var shorts: Shorts<V> := seq(UCHAR_MAX, i => if i == 'v' as int then n else null);
      var v: Registry<V> := Registry([n], [], map["verbose" := n], map[]);
      v.Consistent() && ShortsOk(v, shorts, {}) && MatchOf(v, shorts, ["-v", "-b"]) == Undefined(GarbageCall)
  {
    var shorts: Shorts<V> := seq(UCHAR_MAX, i => if i == 'v' as int then n else null);
    var v: Registry<V> := Registry([n], [], map["verbose" := n], map[]);
    assert Slot('v') && shorts['v' as int] == n && shorts['b' as int] == null;
    assert n in v.optional && v.Lists(n);
    ListedOnly(v, shorts, n);
    var seen: Seen<V> := Seen("verbose", None);
    assert StepOf(v, shorts, ["-v", "-b"], []) == Take(1, seen);
    assert ["-v", "-b"][1..] == ["-b"] && [] + [seen] == [seen];
    assert StepOf(v, shorts, ["-b"], [seen]) == Refuse;
    assert [seen][0].arg.None?;
  }
}
