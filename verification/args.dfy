/**
  The argument loop of ud.cxx's entry point.  Arguments starting with `-`
  or `/` are options chosen by their second character, case-insensitively
  (`w`: capture the whole window, `v`: verbose); any other option is a usage
  error.  The first positional argument becomes the application name,
  switches off enumerate mode and is translated into the regex; a further
  positional argument is a usage error.  The test for "already have a name"
  is whether the name is empty, so an empty positional argument does not
  block a later one.  After the loop, a tracking run reads the name as a
  number for the window-handle / process-id match.
*/
module Args {
  import opened Wrappers
  import opened Wildcard
  import opened AppId

  /** The run configuration fixed at start-up. */
  datatype Config = Config(enumerate: bool, wholeWindow: bool, verbose: bool, appName: seq<char>, regex: seq<char>, appId: nat)

  datatype UsageError = InvalidArgument | TooManyArguments

  /** The settings accumulated while the arguments are read. */
  datatype Settings = Settings(enumerate: bool, wholeWindow: bool, verbose: bool, appName: seq<char>, regex: seq<char>)

  predicate IsOption(arg: seq<char>) {
    |arg| > 0 && (arg[0] == '-' || arg[0] == '/')
  }

  /** The option letter; an argument of one character has the terminating NUL there. */
  function OptionLetter(arg: seq<char>): char {
    if |arg| > 1 then AsciiFold(arg[1]) else '\0'
  }

  predicate ValidOption(arg: seq<char>) {
    OptionLetter(arg) == 'w' || OptionLetter(arg) == 'v'
  }

  /** Reads `args` left to right from settings `st`, stopping at the first usage error. */
  function Consume(st: Settings, args: seq<seq<char>>): Result<Settings, UsageError>
    decreases |args|
  {
    if args == [] then Success(st)
    else
      var a := args[0];
      if IsOption(a) then
        if OptionLetter(a) == 'w' then Consume(st.(wholeWindow := true), args[1..])
        else if OptionLetter(a) == 'v' then Consume(st.(verbose := true), args[1..])
        else Failure(InvalidArgument)
      else if st.appName == [] then
        Consume(st.(appName := a, enumerate := false, regex := Translate(a)), args[1..])
      else Failure(TooManyArguments)
  }

  /** The arguments after the program name, read into a configuration.
      A tracking run reads its id from the name; an enumerating run keeps 0. */
  function ParseArgs(args: seq<seq<char>>): (r: Result<Config, UsageError>)
    ensures r.Success? && r.value.enumerate ==> r.value.appName == [] && r.value.regex == [] && r.value.appId == 0
    ensures r.Success? && !r.value.enumerate ==>
      r.value.regex == Translate(r.value.appName) && r.value.appId == ParseAppId(r.value.appName)
    ensures r.Success? ==> r.value.appId <= U64_MAX
  {
    var st := Settings(true, false, false, [], []);
    ConsumeEnumerate(st, args);
    ConsumeLastName(st, args);
    match Consume(st, args)
    case Failure(e) => Failure(e)
    case Success(s) =>
      Success(Config(s.enumerate, s.wholeWindow, s.verbose, s.appName, s.regex,
                     if s.enumerate then 0 else ParseAppId(s.appName)))
  }

  /** Every option is valid. */
  predicate OptionsValid(args: seq<seq<char>>) {
    forall i :: 0 <= i < |args| && IsOption(args[i]) ==> ValidOption(args[i])
  }

  /** No positional argument follows a non-empty name: neither one already
      held (`name`) nor an earlier positional argument. */
  predicate PositionalsOk(name: seq<char>, args: seq<seq<char>>) {
    && (name != [] ==> forall i :: 0 <= i < |args| ==> IsOption(args[i]))
    && (forall i, j :: 0 <= i < j < |args| && !IsOption(args[i]) && !IsOption(args[j]) ==> args[i] == [])
  }

  predicate HasOption(args: seq<seq<char>>, letter: char) {
    exists i :: 0 <= i < |args| && IsOption(args[i]) && OptionLetter(args[i]) == letter
  }

  /** `name` is the last positional argument. */
  predicate IsLastPositional(args: seq<seq<char>>, name: seq<char>) {
    exists i :: 0 <= i < |args| && !IsOption(args[i]) && args[i] == name
      && forall j :: i < j < |args| ==> IsOption(args[j])
  }

  /** Reading succeeds exactly when every option is valid and no positional
      argument follows a non-empty one. */
  lemma {:induction false} ConsumeSucceeds(st: Settings, args: seq<seq<char>>)
    ensures Consume(st, args).Success? <==> OptionsValid(args) && PositionalsOk(st.appName, args)
    decreases |args|
  {
    if args != [] {
      var a := args[0];
      var rest := args[1..];
      assert forall i :: 1 <= i < |args| ==> args[i] == rest[i - 1];
      if IsOption(a) {
        if OptionLetter(a) == 'w' {
          ConsumeSucceeds(st.(wholeWindow := true), rest);
        } else if OptionLetter(a) == 'v' {
          ConsumeSucceeds(st.(verbose := true), rest);
        } else {
          assert !OptionsValid(args);
        }
      } else if st.appName == [] {
        ConsumeSucceeds(st.(appName := a, enumerate := false, regex := Translate(a)), rest);
        if OptionsValid(args) && PositionalsOk(st.appName, args) && a != [] {
          assert !IsOption(args[0]);
        }
      } else {
        assert !PositionalsOk(st.appName, args);
      }
    }
  }

  /** An option occurs in a non-empty argument list exactly when it is the
      first argument or occurs among the rest. */
  lemma HasOptionCons(args: seq<seq<char>>, letter: char)
    requires args != []
    ensures HasOption(args, letter) <==>
      (IsOption(args[0]) && OptionLetter(args[0]) == letter) || HasOption(args[1..], letter)
  {
    var rest := args[1..];
    if HasOption(rest, letter) {
      var i :| 0 <= i < |rest| && IsOption(rest[i]) && OptionLetter(rest[i]) == letter;
      assert args[i + 1] == rest[i];
    }
    if HasOption(args, letter) && !(IsOption(args[0]) && OptionLetter(args[0]) == letter) {
      var i :| 0 <= i < |args| && IsOption(args[i]) && OptionLetter(args[i]) == letter;
      assert rest[i - 1] == args[i];
    }
  }

  /** A successful read records which options occurred. */
  lemma {:induction false} ConsumeOptions(st: Settings, args: seq<seq<char>>)
    ensures Consume(st, args).Success? ==>
      && Consume(st, args).value.wholeWindow == (st.wholeWindow || HasOption(args, 'w'))
      && Consume(st, args).value.verbose == (st.verbose || HasOption(args, 'v'))
    decreases |args|
  {
    if args != [] && Consume(st, args).Success? {
      var a := args[0];
      var rest := args[1..];
      HasOptionCons(args, 'w');
      HasOptionCons(args, 'v');
      if IsOption(a) {
        if OptionLetter(a) == 'w' {
          ConsumeOptions(st.(wholeWindow := true), rest);
        } else {
          ConsumeOptions(st.(verbose := true), rest);
        }
      } else {
        ConsumeOptions(st.(appName := a, enumerate := false, regex := Translate(a)), rest);
      }
    }
  }

  predicate AllOptions(args: seq<seq<char>>) {
    forall i :: 0 <= i < |args| ==> IsOption(args[i])
  }

  /** A successful read enumerates exactly when no positional argument
      occurred, and then leaves the name and regex as they were. */
  lemma {:induction false} ConsumeEnumerate(st: Settings, args: seq<seq<char>>)
    ensures Consume(st, args).Success? ==>
      && Consume(st, args).value.enumerate == (st.enumerate && AllOptions(args))
      && (AllOptions(args) ==> Consume(st, args).value.appName == st.appName && Consume(st, args).value.regex == st.regex)
    decreases |args|
  {
    if args != [] && Consume(st, args).Success? {
      var a := args[0];
      var rest := args[1..];
      assert forall i :: 1 <= i < |args| ==> args[i] == rest[i - 1];
      if IsOption(a) {
        if OptionLetter(a) == 'w' {
          ConsumeEnumerate(st.(wholeWindow := true), rest);
        } else {
          ConsumeEnumerate(st.(verbose := true), rest);
        }
      } else {
        ConsumeEnumerate(st.(appName := a, enumerate := false, regex := Translate(a)), rest);
      }
    }
  }

  /** A successful read that met a positional argument keeps the last one as
      the name, with its translation as the regex. */
  lemma {:induction false} ConsumeLastName(st: Settings, args: seq<seq<char>>)
    ensures Consume(st, args).Success? && !AllOptions(args) ==>
      IsLastPositional(args, Consume(st, args).value.appName)
      && Consume(st, args).value.regex == Translate(Consume(st, args).value.appName)
    decreases |args|
  {
    if args != [] && Consume(st, args).Success? && !AllOptions(args) {
      var a := args[0];
      var rest := args[1..];
      if IsOption(a) {
        var st' := if OptionLetter(a) == 'w' then st.(wholeWindow := true) else st.(verbose := true);
        assert Consume(st, args) == Consume(st', rest);
        ConsumeLastName(st', rest);
        LastNameAfterOption(args, Consume(st, args).value.appName);
      } else {
        var st' := st.(appName := a, enumerate := false, regex := Translate(a));
        assert Consume(st, args) == Consume(st', rest);
        ConsumeLastName(st', rest);
        ConsumeEnumerate(st', rest);
        LastNameAfterName(args, Consume(st, args).value.appName);
      }
    }
  }

  /** An option in front does not change which positional argument is last. */
  lemma LastNameAfterOption(args: seq<seq<char>>, name: seq<char>)
    requires args != [] && IsOption(args[0]) && !AllOptions(args)
    requires !AllOptions(args[1..]) ==> IsLastPositional(args[1..], name)
    ensures IsLastPositional(args, name)
  {
    var rest := args[1..];
    assert !AllOptions(rest) by {
      var k :| 0 <= k < |args| && !IsOption(args[k]);
      assert !IsOption(rest[k - 1]);
    }
    var i :| 0 <= i < |rest| && !IsOption(rest[i]) && rest[i] == name
      && forall j :: i < j < |rest| ==> IsOption(rest[j]);
    assert args[i + 1] == rest[i];
    assert forall j :: i + 1 < j < |args| ==> args[j] == rest[j - 1];
  }

  /** A positional argument in front is the last one when only options
      follow it, and otherwise the last positional argument of the rest is. */
  lemma LastNameAfterName(args: seq<seq<char>>, name: seq<char>)
    requires args != [] && !IsOption(args[0])
    requires !AllOptions(args[1..]) ==> IsLastPositional(args[1..], name)
    requires AllOptions(args[1..]) ==> name == args[0]
    ensures IsLastPositional(args, name)
  {
    var rest := args[1..];
    if !AllOptions(rest) {
      var i :| 0 <= i < |rest| && !IsOption(rest[i]) && rest[i] == name
        && forall j :: i < j < |rest| ==> IsOption(rest[j]);
      assert args[i + 1] == rest[i];
      assert forall j :: i + 1 < j < |args| ==> args[j] == rest[j - 1];
    } else {
      assert forall j :: 0 < j < |args| ==> args[j] == rest[j - 1];
    }
  }

  /** The command line is accepted exactly when every option is `w` or `v`
      (either case, after `-` or `/`) and at most the last positional
      argument is non-empty.  An accepted command line enumerates exactly
      when it has no positional argument; otherwise the name is the last
      positional argument, the regex is its translation and the id is its
      numeric reading. */
  lemma ParseArgsMeaning(args: seq<seq<char>>)
    ensures ParseArgs(args).Success? <==> OptionsValid(args) && PositionalsOk([], args)
    ensures ParseArgs(args).Success? ==>
      var c := ParseArgs(args).value;
      && c.wholeWindow == HasOption(args, 'w')
      && c.verbose == HasOption(args, 'v')
      && c.enumerate == AllOptions(args)
      && (c.enumerate ==> c.appName == [] && c.regex == [] && c.appId == 0)
      && (!c.enumerate ==> IsLastPositional(args, c.appName) && c.regex == Translate(c.appName) && c.appId == ParseAppId(c.appName))
  {
    var st := Settings(true, false, false, [], []);
    ConsumeSucceeds(st, args);
    ConsumeOptions(st, args);
    ConsumeEnumerate(st, args);
    ConsumeLastName(st, args);
  }

  /** A second non-empty positional argument is rejected. */
  lemma TwoNamesRejected(args: seq<seq<char>>, i: nat, j: nat)
    requires i < j < |args| && !IsOption(args[i]) && !IsOption(args[j]) && args[i] != []
    ensures ParseArgs(args).Failure?
  {
    ParseArgsMeaning(args);
  }
}
