/** Masking argv for the support log: secret-bearing positionals first, then the values of secret
    flags, in a second pass that steps over the value it has just masked. */
module Redact {
  import opened Wrappers

  const REDACTED := "<redacted>"
  const ENROLLMENT_TOKEN := "--enrollment-token"
  const NEW_KEY := "--new-key"

  predicate IsDash(token: string) { token != [] && token[0] == '-' }

  predicate IsSecretFlag(token: string) { token == ENROLLMENT_TOKEN || token == NEW_KEY }

  /** The secret flag whose value is written into the token itself, as in --new-key=value. */
  function InlineFlag(token: string): (flag: Option<string>)
    ensures flag.Some? ==> IsSecretFlag(flag.value) && flag.value + "=" <= token
  {
    if ENROLLMENT_TOKEN + "=" <= token then Some(ENROLLMENT_TOKEN)
    else if NEW_KEY + "=" <= token then Some(NEW_KEY)
    else None
  }

  /** Which positionals after the subcommand carry secrets. */
  function SecretPositionals(command: string): set<nat> {
    if command == "store" then {1} else if command == "enroll" then {0} else if command == "recovery" then {0} else {}
  }

  // ----- what is secret, token by token

  /** How many of the first i tokens are no flags. */
  function Rank(argv: seq<string>, i: nat): (r: nat)
    requires i <= |argv|
    ensures r <= i
  {
    if i == 0 then 0 else Rank(argv, i - 1) + if IsDash(argv[i - 1]) then 0 else 1
  }

  /** The subcommand: the first token that is no flag. */
  function Command(argv: seq<string>): Option<string> {
    if argv == [] then None
    else if !IsDash(argv[0]) then Some(argv[0])
    else Command(argv[1..])
  }

  predicate SecretPositional(argv: seq<string>, i: nat)
    requires i < |argv|
  {
    && !IsDash(argv[i]) && Rank(argv, i) >= 1
    && Command(argv).Some? && Rank(argv, i) - 1 in SecretPositionals(Command(argv).value)
  }

  /** Token i is the separate value of the secret flag before it. */
  predicate FlagValue(argv: seq<string>, i: nat)
    requires i < |argv|
  {
    i > 0 && IsSecretFlag(argv[i - 1]) && !FlagValue(argv, i - 1)
  }

  datatype Class = Verbatim | Masked | MaskedInline(flag: string)

  function ClassOf(argv: seq<string>, i: nat): Class
    requires i < |argv|
  {
    if SecretPositional(argv, i) || FlagValue(argv, i) then Masked
    else match InlineFlag(argv[i])
         case Some(flag) => MaskedInline(flag)
         case None => Verbatim
  }

  function WithMask(flag: string): string { flag + "=" + REDACTED }

  /** What the log shows: non-secret tokens verbatim, in place, and nothing of the others. */
  function Shown(argv: seq<string>, i: nat): string
    requires i < |argv|
  {
    match ClassOf(argv, i)
    case Verbatim => argv[i]
    case Masked => REDACTED
    case MaskedInline(flag) => WithMask(flag)
  }

  function Redacted(argv: seq<string>): (out: seq<string>)
    ensures |out| == |argv|
  {
    seq(|argv|, i requires 0 <= i < |argv| => Shown(argv, i))
  }

  // ----- the output does not depend on the secrets

  /** b differs from a at most in what the log masks, with every token's shape kept. */
  ghost predicate SameButSecrets(a: seq<string>, b: seq<string>) {
    && |a| == |b|
    && forall i | 0 <= i < |a| ::
         && IsDash(a[i]) == IsDash(b[i])
         && match ClassOf(a, i)
            case Verbatim => b[i] == a[i]
            case Masked => true
            case MaskedInline(flag) => flag + "=" <= b[i]
  }

  lemma {:induction false} SameRank(a: seq<string>, b: seq<string>, i: nat)
    requires |a| == |b| && i <= |a| && forall k | 0 <= k < |a| :: IsDash(a[k]) == IsDash(b[k])
    ensures Rank(a, i) == Rank(b, i)
  {
    hide IsDash;
    if i > 0 {
      SameRank(a, b, i - 1);
    }
  }

  lemma InlineIsNoFlag(token: string, flag: string)
    requires IsSecretFlag(flag) && flag + "=" <= token
    ensures !IsSecretFlag(token) && InlineFlag(token) == Some(flag) && IsDash(token)
  {
    assert token[..|flag| + 1] == flag + "=";
    assert token[|flag|] == '=' && token[2] == flag[2];
    assert ENROLLMENT_TOKEN[2] == 'e' && NEW_KEY[2] == 'n';
    assert ENROLLMENT_TOKEN[9] == 'e' by { assert ENROLLMENT_TOKEN == "--enrollm" + "ent-token"; }
  }

  lemma PlainIsNoFlag(token: string)
    requires !IsDash(token)
    ensures !IsSecretFlag(token) && InlineFlag(token) == None
  {
    assert IsDash(ENROLLMENT_TOKEN) && IsDash(NEW_KEY);
    match InlineFlag(token)
    case None =>
    case Some(flag) => InlineIsNoFlag(token, flag);
  }

  lemma {:induction false} SameFlagValue(a: seq<string>, b: seq<string>, i: nat)
    requires SameButSecrets(a, b) && i < |a|
    ensures FlagValue(a, i) == FlagValue(b, i)
  {
    hide IsDash, IsSecretFlag, InlineFlag, Rank, Command, SecretPositionals;
    if i > 0 {
      SameFlagValue(a, b, i - 1);
      if !FlagValue(a, i - 1) {
        match ClassOf(a, i - 1)
        case Verbatim =>
        case Masked =>
          PlainIsNoFlag(a[i - 1]);
          PlainIsNoFlag(b[i - 1]);
        case MaskedInline(flag) =>
          InlineIsNoFlag(a[i - 1], flag);
          InlineIsNoFlag(b[i - 1], flag);
      }
    }
  }

  /** The first token that is no flag stands as the value of a secret flag, and the program takes it
      for the subcommand. */
  predicate CommandIsSecret(argv: seq<string>) {
    exists f | 0 <= f < |argv| :: IsCommand(argv, f) && FlagValue(argv, f)
  }

  predicate IsCommand(argv: seq<string>, f: nat)
    requires f < |argv|
  {
    !IsDash(argv[f]) && Rank(argv, f) == 0
  }

  /** A positional that some subcommand masks and another shows, and whose showing can be told. */
  predicate Exposed(argv: seq<string>, j: nat)
    requires j < |argv|
  {
    && !IsDash(argv[j]) && 1 <= Rank(argv, j) <= 2 && !FlagValue(argv, j)
    && (SecretPositional(argv, j) || argv[j] != REDACTED)
  }

  /** Some other line, with nothing but masked values changed, is logged differently. */
  predicate Leaks(argv: seq<string>) {
    CommandIsSecret(argv) && exists j | 0 <= j < |argv| :: Exposed(argv, j)
  }

  lemma {:induction false} AllDashes(argv: seq<string>, n: nat)
    requires n <= |argv| && Rank(argv, n) == 0
    ensures forall i | 0 <= i < n :: IsDash(argv[i])
  {
    hide IsDash;
    if n > 0 {
      AllDashes(argv, n - 1);
    }
  }

  lemma {:induction false} CommandAt(argv: seq<string>, i: nat)
    requires i < |argv| && forall k | 0 <= k < i :: IsDash(argv[k])
    ensures !IsDash(argv[i]) ==> Command(argv) == Some(argv[i])
    ensures IsDash(argv[i]) && i == |argv| - 1 ==> Command(argv) == None
  {
    hide IsDash;
    if i > 0 {
      CommandAt(argv[1..], i - 1);
    }
  }

  lemma CommandIs(argv: seq<string>, f: nat)
    requires f < |argv| && IsCommand(argv, f)
    ensures Command(argv) == Some(argv[f])
  {
    AllDashes(argv, f);
    CommandAt(argv, f);
    hide IsDash, Rank;
  }

  lemma {:induction false} CommandOf(argv: seq<string>, n: nat) returns (f: nat)
    requires n <= |argv| && Rank(argv, n) > 0
    ensures f < n && IsCommand(argv, f)
  {
    hide IsDash;
    if Rank(argv, n - 1) > 0 {
      f := CommandOf(argv, n - 1);
    } else {
      f := n - 1;
    }
  }

  lemma NoSecretAtCommand(argv: seq<string>, i: nat)
    requires i < |argv|
    ensures SecretPositional(argv, i) ==> !IsDash(argv[i]) && 1 <= Rank(argv, i) <= 2
  {
    hide IsDash, Rank, Command;
  }

  /** A subcommand that is not masked is the same in both lines, and so is what it masks. */
  lemma SamePositional(a: seq<string>, b: seq<string>, i: nat)
    requires SameButSecrets(a, b) && i < |a| && !CommandIsSecret(a)
    ensures SecretPositional(a, i) == SecretPositional(b, i)
  {
    SameRank(a, b, i);
    hide Rank, Command, IsDash, SecretPositionals, IsSecretFlag, InlineFlag;
    if !IsDash(a[i]) && Rank(a, i) > 0 {
      var f := CommandOf(a, i);
      SameRank(a, b, f);
      CommandIs(a, f);
      CommandIs(b, f);
      PlainIsNoFlag(a[f]);
      assert ClassOf(a, f) == Verbatim;
    }
  }

  lemma SameShown(a: seq<string>, b: seq<string>, i: nat)
    requires SameButSecrets(a, b) && i < |a| && !Leaks(a)
    ensures Shown(a, i) == Shown(b, i)
  {
    hide IsSecretFlag, InlineFlag, Command, IsDash, Rank, SecretPositionals, SecretPositional, FlagValue, CommandIsSecret;
    SameFlagValue(a, b, i);
    match ClassOf(a, i)
    case MaskedInline(flag) =>
      InlineIsNoFlag(a[i], flag);
      InlineIsNoFlag(b[i], flag);
      NoSecretAtCommand(b, i);
    case _ =>
      if IsDash(a[i]) {
        NoSecretAtCommand(a, i);
        NoSecretAtCommand(b, i);
      } else if !FlagValue(a, i) {
        PlainIsNoFlag(a[i]);
        PlainIsNoFlag(b[i]);
        if CommandIsSecret(a) {
          assert !Exposed(a, i);
          SameRank(a, b, i);
          NoSecretAtCommand(a, i);
          NoSecretAtCommand(b, i);
        } else {
          SamePositional(a, b, i);
        }
      }
  }

  lemma SameShape(a: seq<string>, b: seq<string>)
    requires SameButSecrets(a, b)
    ensures |a| == |b| && forall i | 0 <= i < |a| :: IsDash(a[i]) == IsDash(b[i])
  {
    hide IsDash, ClassOf;
  }

  /** Changing masked values, and nothing else, leaves the log line as it is, unless the line leaks. */
  lemma LogHidesSecrets(a: seq<string>, b: seq<string>)
    requires SameButSecrets(a, b) && !Leaks(a)
    ensures Redacted(a) == Redacted(b)
  {
    hide SameButSecrets, Shown, Leaks;
    SameShape(a, b);
    forall i | 0 <= i < |a| ensures Shown(a, i) == Shown(b, i) {
      SameShown(a, b, i);
    }
  }

  /** a with another subcommand, and with token j as given. */
  function Varied(a: seq<string>, f: nat, command: string, j: nat, token: string): (b: seq<string>)
    requires f < |a| && j < |a|
    ensures |b| == |a|
  {
    a[j := token][f := command]
  }

  lemma VariedIsSame(a: seq<string>, f: nat, command: string, j: nat, token: string)
    requires f < |a| && j < |a| && f != j && IsCommand(a, f) && FlagValue(a, f) && !IsDash(a[j])
    requires !IsDash(command) && !IsDash(token) && (token == a[j] || SecretPositional(a, j))
    ensures SameButSecrets(a, Varied(a, f, command, j, token))
    ensures Command(Varied(a, f, command, j, token)) == Some(command)
  {
    hide IsDash, Rank, Command, SecretPositional, IsSecretFlag, FlagValue;
    var b := Varied(a, f, command, j, token);
    forall i | 0 <= i < |a| && ClassOf(a, i).MaskedInline?
      ensures ClassOf(a, i).flag + "=" <= a[i] && IsDash(a[i])
    {
      InlineIsNoFlag(a[i], ClassOf(a, i).flag);
    }
    SameRank(a, b, f);
    CommandIs(b, f);
  }

  lemma CommandShapes()
    ensures !IsDash("x") && !IsDash("enroll") && !IsDash("store") && "x" != REDACTED
    ensures SecretPositionals("x") == {} && SecretPositionals("enroll") == {0} && SecretPositionals("store") == {1}
  {}

  lemma RedactedAt(argv: seq<string>, i: nat)
    requires i < |argv|
    ensures Redacted(argv)[i] == Shown(argv, i)
  {
    hide Shown;
  }

  lemma ShownPositional(argv: seq<string>, j: nat, command: string)
    requires j < |argv| && !IsDash(argv[j]) && !FlagValue(argv, j)
    requires Rank(argv, j) >= 1 && Command(argv) == Some(command)
    ensures SecretPositional(argv, j) <==> Rank(argv, j) - 1 in SecretPositionals(command)
    ensures Shown(argv, j) == if SecretPositional(argv, j) then REDACTED else argv[j]
  {
    hide IsDash, Rank, Command, FlagValue, SecretPositionals, InlineFlag, IsSecretFlag;
    PlainIsNoFlag(argv[j]);
  }

  lemma VariedShows(a: seq<string>, f: nat, command: string, j: nat, token: string)
    requires f < |a| && j < |a| && IsCommand(a, f) && FlagValue(a, f)
    requires !IsDash(a[j]) && Rank(a, j) >= 1 && !FlagValue(a, j)
    requires !IsDash(command) && !IsDash(token) && (token == a[j] || SecretPositional(a, j))
    ensures var b := Varied(a, f, command, j, token);
            && SameButSecrets(a, b)
            && Redacted(a)[j] == (if SecretPositional(a, j) then REDACTED else a[j])
            && Redacted(b)[j] == (if Rank(a, j) - 1 in SecretPositionals(command) then REDACTED else token)
  {
    hide IsDash, Command, Rank, SameButSecrets, FlagValue, SecretPositional, SecretPositionals, Redacted, Shown;
    var b := Varied(a, f, command, j, token);
    VariedIsSame(a, f, command, j, token);
    SameFlagValue(a, b, j);
    SameShape(a, b);
    SameRank(a, b, j);
    CommandIs(a, f);
    ShownPositional(a, j, a[f]);
    ShownPositional(b, j, command);
    RedactedAt(a, j);
    RedactedAt(b, j);
  }

  /** The value that lets the log tell: a subcommand that masks a token shown, or shows a masked one. */
  lemma LeakIsReal(a: seq<string>) returns (b: seq<string>)
    requires Leaks(a)
    ensures SameButSecrets(a, b) && Redacted(a) != Redacted(b)
  {
    hide IsDash, IsSecretFlag, Rank, FlagValue, SecretPositional, SecretPositionals, Redacted, SameButSecrets, Varied;
    var f :| 0 <= f < |a| && IsCommand(a, f) && FlagValue(a, f);
    var j :| 0 <= j < |a| && Exposed(a, j);
    hide IsCommand;
    CommandShapes();
    if SecretPositional(a, j) {
      b := Varied(a, f, "x", j, "x");
      VariedShows(a, f, "x", j, "x");
    } else {
      var command := if Rank(a, j) == 1 then "enroll" else "store";
      b := Varied(a, f, command, j, a[j]);
      VariedShows(a, f, command, j, a[j]);
    }
  }

  /** Exactly when the log line is independent of what it masks. */
  lemma HidesExactly(a: seq<string>)
    ensures (forall b | SameButSecrets(a, b) :: Redacted(b) == Redacted(a)) <==> !Leaks(a)
  {
    hide SameButSecrets, Redacted, Leaks;
    if Leaks(a) {
      var b := LeakIsReal(a);
    } else {
      forall b | SameButSecrets(a, b) ensures Redacted(b) == Redacted(a) {
        LogHidesSecrets(a, b);
      }
    }
  }

  /** It happens: two lines that differ in one masked flag value and show different tokens. */
  lemma FlagValueTakenForCommand()
    ensures var a, b := [NEW_KEY, "x", "k", "v"], [NEW_KEY, "store", "k", "v"];
            && ClassOf(a, 1) == ClassOf(b, 1) == Masked
            && Shown(a, 3) == "v" && Shown(b, 3) == REDACTED
  {
    var a, b := [NEW_KEY, "x", "k", "v"], [NEW_KEY, "store", "k", "v"];
    assert IsDash(NEW_KEY) && !IsDash("x") && !IsDash("store") && !IsDash("k") && !IsDash("v");
    RankOfFour(a);
    RankOfFour(b);
    CommandIs(a, 1);
    CommandIs(b, 1);
    assert !FlagValue(a, 0) && FlagValue(a, 1) && !FlagValue(b, 0) && FlagValue(b, 1);
    PlainIsNoFlag("k");
    PlainIsNoFlag("v");
  }

  lemma RankOfFour(argv: seq<string>)
    requires |argv| == 4 && IsDash(argv[0]) && !IsDash(argv[1]) && !IsDash(argv[2])
    ensures Rank(argv, 1) == 0 && Rank(argv, 3) == 2
  {
    assert Rank(argv, 1) == 0 && Rank(argv, 2) == 1;
  }

  // ----- against the command line the parser reads

  /** Token i is the separate value of an option that takes one. */
  predicate OptionValue(argv: seq<string>, valued: set<string>, i: nat)
    requires i < |argv|
  {
    i > 0 && argv[i - 1] in valued && !OptionValue(argv, valued, i - 1)
  }

  /** The positions that hold such values. */
  function OptionValues(argv: seq<string>, valued: set<string>): set<nat> {
    set i | 0 <= i < |argv| && OptionValue(argv, valued, i)
  }

  /** How many of the first i tokens are positionals to the parser, the subcommand included. `taken`
      are the positions it has bound to options as their values. */
  function Bound(argv: seq<string>, taken: set<nat>, i: nat): (r: nat)
    requires i <= |argv|
    ensures r <= Rank(argv, i)
  {
    if i == 0 then 0 else Bound(argv, taken, i - 1) + if IsDash(argv[i - 1]) || i - 1 in taken then 0 else 1
  }

  /** Token i is, to the parser, the positional of the subcommand that carries its secret. */
  predicate TrueSecret(argv: seq<string>, taken: set<nat>, i: nat)
    requires i < |argv|
  {
    && !IsDash(argv[i]) && i !in taken && Bound(argv, taken, i) >= 1
    && Command(argv).Some? && Bound(argv, taken, i) - 1 in SecretPositionals(Command(argv).value)
  }

  /** Some option value without a dash stands before token i. */
  predicate ValueBefore(argv: seq<string>, taken: set<nat>, i: nat)
    requires i <= |argv|
  {
    exists k | 0 <= k < i :: !IsDash(argv[k]) && k in taken
  }

  lemma {:induction false} BoundIsRank(argv: seq<string>, taken: set<nat>, i: nat)
    requires i <= |argv|
    ensures Bound(argv, taken, i) == Rank(argv, i) <==> !ValueBefore(argv, taken, i)
  {
    hide IsDash;
    if i > 0 {
      BoundIsRank(argv, taken, i - 1);
      assert ValueBefore(argv, taken, i) <==> ValueBefore(argv, taken, i - 1) || (!IsDash(argv[i - 1]) && i - 1 in taken);
    }
  }

  lemma OneSecretPositional(command: string, p: nat, q: nat)
    requires p in SecretPositionals(command)
    ensures q in SecretPositionals(command) <==> q == p
  {}

  /** The table counts option values as positionals. So the secret of a store, enroll or recovery line
      is logged verbatim exactly when an option value stands before it, apart from a token that is
      masked as a secret flag's value, or spells the mask itself. */
  lemma TrueSecretShown(argv: seq<string>, taken: set<nat>, i: nat)
    requires i < |argv| && TrueSecret(argv, taken, i)
    ensures Shown(argv, i) == argv[i] <==>
            argv[i] == REDACTED || (ValueBefore(argv, taken, i) && !FlagValue(argv, i))
  {
    hide IsDash, Rank, Bound, Command, SecretPositionals, FlagValue, SecretPositional, Shown, ValueBefore;
    BoundIsRank(argv, taken, i);
    var command := Command(argv).value;
    OneSecretPositional(command, Bound(argv, taken, i) - 1, Rank(argv, i) - 1);
    if FlagValue(argv, i) {
      ShownFlagValue(argv, i);
    } else {
      ShownPositional(argv, i, command);
    }
  }

  lemma ShownFlagValue(argv: seq<string>, i: nat)
    requires i < |argv| && FlagValue(argv, i)
    ensures Shown(argv, i) == REDACTED
  {
    hide FlagValue;
  }

  /** Without such a value, and whatever else stands around it, the secret is masked. */
  lemma TrueSecretMasked(argv: seq<string>, taken: set<nat>, i: nat)
    requires i < |argv| && TrueSecret(argv, taken, i) && !ValueBefore(argv, taken, i)
    ensures Shown(argv, i) == REDACTED
  {
    hide IsDash, Rank, Bound, Command, SecretPositionals, FlagValue, SecretPositional, Shown, ValueBefore;
    BoundIsRank(argv, taken, i);
    if FlagValue(argv, i) {
      ShownFlagValue(argv, i);
    } else {
      ShownPositional(argv, i, Command(argv).value);
    }
  }

  lemma EnrollShapes()
    ensures !IsDash("enroll") && IsDash("--label") && !IsSecretFlag("enroll") && !IsSecretFlag("--label")
    ensures "enroll" != "--label" && SecretPositionals("enroll") == {0}
  {
    assert "--label"[2] == 'l' && ENROLLMENT_TOKEN[2] == 'e' && NEW_KEY[2] == 'n';
    assert "enroll"[0] == 'e' && ENROLLMENT_TOKEN[0] == NEW_KEY[0] == '-';
  }

  /** Four tokens of the shape: subcommand, option, its value, positional. */
  lemma EnrollCounts(argv: seq<string>, option: string)
    requires |argv| == 4 && argv[1] == option && argv[0] != option && IsDash(option)
    requires !IsDash(argv[0]) && !IsDash(argv[2]) && !IsDash(argv[3])
    requires argv[2] != option && !IsSecretFlag(argv[0]) && !IsSecretFlag(option) && !IsSecretFlag(argv[2])
    ensures Rank(argv, 2) == 1 && Rank(argv, 3) == 2 && Bound(argv, OptionValues(argv, {option}), 3) == 1
    ensures 3 !in OptionValues(argv, {option}) && !FlagValue(argv, 2) && !FlagValue(argv, 3)
    ensures IsCommand(argv, 0) && !CommandIsSecret(argv)
  {
    hide IsDash, IsSecretFlag;
    var taken := OptionValues(argv, {option});
    assert !OptionValue(argv, {option}, 0) && !OptionValue(argv, {option}, 1);
    assert OptionValue(argv, {option}, 2) && !OptionValue(argv, {option}, 3);
    assert Rank(argv, 0) == 0 && Rank(argv, 1) == 1 && Rank(argv, 2) == 1 && Rank(argv, 3) == 2;
    assert Bound(argv, taken, 1) == 1 && Bound(argv, taken, 2) == 1;
    assert !FlagValue(argv, 0);
  }

  /** It happens: the label of an enrollment is masked, and the token behind it is logged. */
  lemma EnrollmentTokenShown(name: string, token: string)
    requires !IsDash(name) && !IsDash(token) && token != REDACTED
    ensures var argv := ["enroll", "--label", name, token];
            && TrueSecret(argv, OptionValues(argv, {"--label"}), 3)
            && Shown(argv, 2) == REDACTED && Shown(argv, 3) == token && !Leaks(argv)
  {
    hide IsDash, IsSecretFlag, Shown, SecretPositionals, Rank, Bound, FlagValue, OptionValues, CommandIsSecret, Command;
    var argv := ["enroll", "--label", name, token];
    EnrollShapes();
    PlainIsNoFlag(name);
    EnrollCounts(argv, "--label");
    CommandIs(argv, 0);
    ShownPositional(argv, 2, "enroll");
    ShownPositional(argv, 3, "enroll");
  }

  // ----- what is masked, in the commands' and flags' own names

  lemma RankOfPlain(argv: seq<string>, i: nat)
    requires i <= |argv| && forall k | 0 <= k < i :: !IsDash(argv[k])
    ensures Rank(argv, i) == i
  {
    hide IsDash;
    if i > 0 {
      RankOfPlain(argv, i - 1);
    }
  }

  lemma {:induction false} NoFlagValueInPlain(argv: seq<string>, i: nat)
    requires i < |argv| && forall k | 0 <= k < |argv| :: !IsDash(argv[k])
    ensures !FlagValue(argv, i)
  {
    if i > 0 {
      PlainIsNoFlag(argv[i - 1]);
    }
  }

  lemma TableIs(command: string, p: nat)
    ensures p in SecretPositionals(command) <==>
            (command == "store" && p == 1) || (command == "enroll" && p == 0) || (command == "recovery" && p == 0)
  {}

  /** On a line without flags exactly one token can be masked: the value of a store, the token of an
      enrollment, the code of a recovery. */
  lemma PlainLineShown(argv: seq<string>, i: nat)
    requires i < |argv| && forall k | 0 <= k < |argv| :: !IsDash(argv[k])
    ensures Shown(argv, i) ==
            if (argv[0] == "store" && i == 2) || (argv[0] == "enroll" && i == 1) || (argv[0] == "recovery" && i == 1)
            then "<redacted>" else argv[i]
  {
    hide IsDash, Rank, Command, FlagValue, SecretPositionals, SecretPositional, Shown;
    RankOfPlain(argv, i);
    RankOfPlain(argv, 0);
    NoFlagValueInPlain(argv, i);
    CommandIs(argv, 0);
    if i == 0 {
      ShownCommand(argv);
    } else {
      ShownPositional(argv, i, argv[0]);
      TableIs(argv[0], i - 1);
    }
  }

  lemma ShownCommand(argv: seq<string>)
    requires argv != [] && !IsDash(argv[0])
    ensures Shown(argv, 0) == argv[0]
  {
    PlainIsNoFlag(argv[0]);
    hide IsDash, Command, InlineFlag;
  }

  /** A value that stands behind a secret flag is masked, unless that flag is itself such a value; one
      written into the flag's own token is masked behind the flag's name; the flag's name is kept. */
  lemma FlagsMasked(argv: seq<string>, i: nat, value: string)
    requires i < |argv|
    ensures i > 0 && (argv[i - 1] == "--enrollment-token" || argv[i - 1] == "--new-key") &&
            (i == 1 || (argv[i - 2] != "--enrollment-token" && argv[i - 2] != "--new-key")) ==>
              Shown(argv, i) == "<redacted>"
    ensures argv[i] == "--enrollment-token" + "=" + value && !FlagValue(argv, i) ==>
              Shown(argv, i) == "--enrollment-token" + "=" + "<redacted>"
    ensures argv[i] == "--new-key" + "=" + value && !FlagValue(argv, i) ==> Shown(argv, i) == "--new-key" + "=" + "<redacted>"
  {
    hide SecretPositional, InlineFlag, IsDash;
    if i > 0 && (i == 1 || !IsSecretFlag(argv[i - 2])) {
      assert !FlagValue(argv, i - 1);
      assert FlagValue(argv, i) <==> IsSecretFlag(argv[i - 1]);
    }
    if argv[i] == ENROLLMENT_TOKEN + "=" + value {
      InlineIsNoFlag(argv[i], ENROLLMENT_TOKEN);
      DashedIsNoPositional(argv, i);
    }
    if argv[i] == NEW_KEY + "=" + value {
      InlineIsNoFlag(argv[i], NEW_KEY);
      DashedIsNoPositional(argv, i);
    }
  }

  lemma DashedIsNoPositional(argv: seq<string>, i: nat)
    requires i < |argv| && IsDash(argv[i])
    ensures !SecretPositional(argv, i)
  {}

  /** Any other token with a dash is logged as it is. */
  lemma OtherFlagsShown(argv: seq<string>, i: nat)
    requires i < |argv| && IsDash(argv[i]) && !("--enrollment-token" + "=" <= argv[i]) && !("--new-key" + "=" <= argv[i])
    requires i == 0 || (argv[i - 1] != "--enrollment-token" && argv[i - 1] != "--new-key")
    ensures Shown(argv, i) == argv[i]
  {
    DashedIsNoPositional(argv, i);
    hide SecretPositional, IsDash;
  }

  // ----- the two passes

  /** The positions of the tokens that are no flags. */
  function NonFlags(argv: seq<string>, n: nat): (positions: seq<nat>)
    requires n <= |argv|
    ensures |positions| == Rank(argv, n)
    ensures forall k | 0 <= k < |positions| :: positions[k] < n && !IsDash(argv[positions[k]])
  {
    if n == 0 then []
    else if IsDash(argv[n - 1]) then NonFlags(argv, n - 1)
    else NonFlags(argv, n - 1) + [n - 1]
  }

  lemma {:induction false} NonFlagAt(argv: seq<string>, n: nat, i: nat)
    requires n <= |argv| && i < n && !IsDash(argv[i])
    ensures Rank(argv, i) < |NonFlags(argv, n)| && NonFlags(argv, n)[Rank(argv, i)] == i
  {
    hide IsDash;
    if i < n - 1 {
      NonFlagAt(argv, n - 1, i);
    }
  }

  lemma {:induction false} RankAt(argv: seq<string>, n: nat, k: nat)
    requires n <= |argv| && k < Rank(argv, n)
    ensures Rank(argv, NonFlags(argv, n)[k]) == k
  {
    hide IsDash;
    if k < Rank(argv, n - 1) {
      RankAt(argv, n - 1, k);
    }
  }

  lemma {:induction false} FirstNonFlag(argv: seq<string>, n: nat)
    requires n <= |argv|
    ensures Rank(argv, n) > 0 ==> Command(argv) == Some(argv[NonFlags(argv, n)[0]])
    ensures n == |argv| && Rank(argv, n) == 0 ==> Command(argv) == None
  {
    hide IsDash;
    if n > 0 {
      FirstNonFlag(argv, n - 1);
      if Rank(argv, n - 1) == 0 {
        AllDashes(argv, n - 1);
        CommandAt(argv, n - 1);
      }
    } else if argv == [] {
      assert Command(argv) == None;
    }
  }

  /** The tokens once the secret positionals are masked. */
  ghost predicate FirstPassDone(argv: seq<string>, out: seq<string>) {
    && |out| == |argv|
    && forall i | 0 <= i < |argv| :: out[i] == if SecretPositional(argv, i) then REDACTED else argv[i]
  }

  /** The secret positionals among the first `pos` after the subcommand are masked. */
  ghost predicate MaskedUpTo(argv: seq<string>, out: seq<string>, pos: nat) {
    && |out| == |argv|
    && forall i | 0 <= i < |argv| :: out[i] == if SecretPositional(argv, i) && Rank(argv, i) <= pos then REDACTED else argv[i]
  }

  lemma NonFlagWithRank(argv: seq<string>, pos: nat, k: nat)
    requires pos < Rank(argv, |argv|) && k < |argv|
    ensures !IsDash(argv[k]) && Rank(argv, k) == pos <==> k == NonFlags(argv, |argv|)[pos]
  {
    hide IsDash;
    RankAt(argv, |argv|, pos);
    if !IsDash(argv[k]) {
      NonFlagAt(argv, |argv|, k);
    }
  }

  lemma MaskStep(argv: seq<string>, out: seq<string>, pos: nat, command: string)
    requires MaskedUpTo(argv, out, pos) && pos + 1 < Rank(argv, |argv|) && Command(argv) == Some(command)
    ensures var i := NonFlags(argv, |argv|)[pos + 1];
            MaskedUpTo(argv, if pos in SecretPositionals(command) then out[i := REDACTED] else out, pos + 1)
  {
    hide IsDash, SecretPositionals, SecretPositional, Command, Rank, NonFlags;
    var i := NonFlags(argv, |argv|)[pos + 1];
    var next := if pos in SecretPositionals(command) then out[i := REDACTED] else out;
    forall k | 0 <= k < |argv|
      ensures next[k] == if SecretPositional(argv, k) && Rank(argv, k) <= pos + 1 then REDACTED else argv[k]
    {
      NonFlagWithRank(argv, pos + 1, k);
      PositionalWithRank(argv, pos, k, command);
    }
  }

  lemma PositionalWithRank(argv: seq<string>, pos: nat, k: nat, command: string)
    requires k < |argv| && Command(argv) == Some(command)
    ensures SecretPositional(argv, k) ==> !IsDash(argv[k])
    ensures !IsDash(argv[k]) && Rank(argv, k) == pos + 1 ==> SecretPositional(argv, k) == (pos in SecretPositionals(command))
  {
    hide IsDash, Rank, Command, SecretPositionals;
  }

  lemma MaskStart(argv: seq<string>)
    ensures MaskedUpTo(argv, argv, 0)
  {
    hide IsDash, SecretPositionals, Command;
  }

  lemma MaskEnd(argv: seq<string>, out: seq<string>, pos: nat)
    requires MaskedUpTo(argv, out, pos) && Rank(argv, |argv|) <= pos + 1
    ensures FirstPassDone(argv, out)
  {
    hide IsDash, SecretPositionals, Command, NonFlags;
    forall i | 0 <= i < |argv| && !IsDash(argv[i]) ensures Rank(argv, i) <= pos {
      NonFlagAt(argv, |argv|, i);
    }
  }

  method FirstPass(argv: seq<string>) returns (out: seq<string>)
    ensures FirstPassDone(argv, out)
  {
    hide IsDash, SecretPositionals, Command, MaskedUpTo, FirstPassDone;
    out := argv;
    MaskStart(argv);
    MaskedLength(argv, out, 0);
    var nonflag: seq<nat> := [];
    for i := 0 to |argv|
      invariant nonflag == NonFlags(argv, i)
    {
      if !IsDash(out[i]) {
        nonflag := nonflag + [i];
      }
    }
    FirstNonFlag(argv, |argv|);
    if nonflag != [] {
      var command := out[nonflag[0]];
      var secret := SecretPositionals(command);
      for pos := 0 to |nonflag| - 1
        invariant MaskedUpTo(argv, out, pos)
      {
        MaskStep(argv, out, pos, command);
        MaskedLength(argv, out, pos);
        if pos in secret {
          out := out[nonflag[pos + 1] := REDACTED];
        }
      }
      MaskEnd(argv, out, |nonflag| - 1);
    } else {
      MaskEnd(argv, out, 0);
    }
  }

  lemma MaskedLength(argv: seq<string>, out: seq<string>, pos: nat)
    requires MaskedUpTo(argv, out, pos)
    ensures |out| == |argv|
  {}

  lemma MaskIsNoFlag(argv: seq<string>, i: nat)
    requires i < |argv|
    ensures !IsSecretFlag(REDACTED) && InlineFlag(REDACTED) == None
    ensures SecretPositional(argv, i) ==> !IsSecretFlag(argv[i])
  {
    if SecretPositional(argv, i) {
      PlainIsNoFlag(argv[i]);
    }
    assert REDACTED[0] == '<' && ENROLLMENT_TOKEN[0] == '-' && NEW_KEY[0] == '-';
  }

  /** What is shown of a token that no flag before it consumes. */
  lemma ShownUnconsumed(argv: seq<string>, out: seq<string>, i: nat)
    requires FirstPassDone(argv, out) && i < |argv| && !FlagValue(argv, i)
    ensures IsSecretFlag(out[i]) == IsSecretFlag(argv[i])
    ensures Shown(argv, i) == match InlineFlag(out[i]) case Some(flag) => WithMask(flag) case None => out[i]
    ensures IsSecretFlag(out[i]) ==> Shown(argv, i) == out[i]
  {
    hide IsSecretFlag, InlineFlag, SecretPositional, FlagValue;
    MaskIsNoFlag(argv, i);
    FlagIsNotInline(out[i]);
  }

  lemma FlagIsNotInline(token: string)
    ensures IsSecretFlag(token) ==> InlineFlag(token) == None
  {
    match InlineFlag(token)
    case None =>
    case Some(flag) => InlineIsNoFlag(token, flag);
  }

  lemma FlagValueNext(argv: seq<string>, i: nat)
    requires i < |argv|
    ensures i + 1 < |argv| ==> FlagValue(argv, i + 1) == (IsSecretFlag(argv[i]) && !FlagValue(argv, i))
    ensures !FlagValue(argv, 0)
    ensures FlagValue(argv, i) ==> Shown(argv, i) == REDACTED
  {
    hide IsSecretFlag;
  }

  lemma FirstPassLength(argv: seq<string>, out: seq<string>)
    requires FirstPassDone(argv, out)
    ensures |out| == |argv|
  {
    hide SecretPositional;
  }

  lemma RedactedIs(argv: seq<string>, out: seq<string>)
    requires |out| == |argv| && forall k | 0 <= k < |argv| :: out[k] == Shown(argv, k)
    ensures out == Redacted(argv)
  {
    hide Shown;
  }

  method RedactArgv(argv: seq<string>) returns (out: seq<string>)
    ensures out == Redacted(argv)
  {
    hide IsSecretFlag, InlineFlag, SecretPositional, IsDash, FlagValue, Shown, FirstPassDone, Redacted, WithMask, Rank, Command;
    out := FirstPass(argv);
    ghost var masked := out;
    FirstPassLength(argv, masked);
    var i := 0;
    if argv != [] {
      FlagValueNext(argv, 0);
    }
    while i < |out|
      invariant |out| == |argv| && i <= |out|
      invariant i < |out| ==> !FlagValue(argv, i)
      invariant forall k | 0 <= k < i :: out[k] == Shown(argv, k)
      invariant forall k | i <= k < |out| :: out[k] == masked[k]
    {
      var token := out[i];
      ShownUnconsumed(argv, masked, i);
      FlagValueNext(argv, i);
      if IsSecretFlag(token) && i + 1 < |out| {
        FlagValueNext(argv, i + 1);
        out := out[i + 1 := REDACTED];
        i := i + 2;
        continue;
      }
      match InlineFlag(token) {
        case Some(flag) => out := out[i := WithMask(flag)];
        case None => out := out[i := token];
      }
      i := i + 1;
    }
    RedactedIs(argv, out);
  }
}
