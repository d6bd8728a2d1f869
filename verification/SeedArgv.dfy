/** Reading and writing a declared seed in an argument vector: src/simple_ar/app/research_execution.py. */
module SeedArgv {
  import opened Collections
  import opened Texts
  import opened Integers

  type Argv = seq<string>

  datatype Reason = AmbiguousFlag | NotAnInteger | Malformed | Conflict

  datatype Result<T> = Ok(value: T) | Error(reason: Reason)

  datatype Binding = Unbound | Bound(index: nat, seed: int)

  /** The argument is the flag itself or the flag with an inline value. */
  predicate Mentions(arg: string, flag: string) {
    arg == flag || flag + "=" <= arg
  }

  function Indices(command: Argv, flag: string): (indices: seq<nat>)
    ensures forall k :: 0 <= k < |indices| ==> indices[k] < |command| && Mentions(command[indices[k]], flag)
  {
    if command == [] then []
    else
      var n := |command| - 1;
      Indices(command[..n], flag) + if Mentions(command[n], flag) then [n] else []
  }

  /** arg.split("=", 1)[1] */
  function AfterEquals(arg: string): string
  {
    if arg == "" then "" else if arg[0] == '=' then arg[1..] else AfterEquals(arg[1..])
  }

  /** `_command_seed` */
  function CommandSeed(command: Argv, flag: string): (r: Result<Binding>)
    ensures r.Ok? && r.value.Bound? ==>
      var i := r.value.index; i < |command| && Mentions(command[i], flag) && (command[i] == flag ==> i + 1 < |command|)
  {
    var indices := Indices(command, flag);
    if indices == [] then Ok(Unbound)
    else if |indices| != 1 then Error(AmbiguousFlag)
    else
      var index := indices[0];
      var text := if command[index] != flag then AfterEquals(command[index])
                  else if index + 1 < |command| then command[index + 1] else "";
      var seed := ParseInt(text);
      if seed.None? then Error(NotAnInteger) else Ok(Bound(index, seed.value))
  }

  /** `_with_seed`, as a function of its arguments. */
  function WithSeed(command: Argv, flag: string, seed: int): Result<Argv> {
    var read := CommandSeed(command, flag);
    if read.Error? then Error(read.reason)
    else if read.value.Unbound? then Ok(command + [flag, Str(seed)])
    else if command[read.value.index] == flag then Ok(command[read.value.index + 1 := Str(seed)])
    else Ok(command[read.value.index := flag + "=" + Str(seed)])
  }

  /** `_with_seed`: copy the argument list and edit the copy. */
  method WriteSeed(command: Argv, flag: string, seed: int) returns (result: Result<Argv>)
    ensures result == WithSeed(command, flag, seed)
  {
    var read := CommandSeed(command, flag);
    if read.Error? { return Error(read.reason); }
    var copy := command;
    match read.value {
      case Unbound =>
        copy := copy + [flag, Str(seed)];
      case Bound(index, _) =>
        if copy[index] == flag {
          copy := copy[index + 1 := Str(seed)];
        } else {
          copy := copy[index := flag + "=" + Str(seed)];
        }
    }
    return Ok(copy);
  }

  // ---------------------------------------------------------------------------------------------
  // Where the flag stands
  // ---------------------------------------------------------------------------------------------

  lemma {:induction false} IndicesExact(command: Argv, flag: string, i: nat)
    requires i < |command|
    ensures i in Indices(command, flag) <==> Mentions(command[i], flag)
  {
    hide Mentions;
    var n := |command| - 1;
    if i < n { IndicesExact(command[..n], flag, i); }
    forall k | 0 <= k < |Indices(command[..n], flag)| ensures Indices(command[..n], flag)[k] < n { }
  }

  /** Whether the flag stands in a place depends on the argument there alone. */
  lemma {:induction false} IndicesSame(one: Argv, other: Argv, flag: string)
    requires |one| == |other|
    requires forall i :: 0 <= i < |one| ==> (Mentions(one[i], flag) <==> Mentions(other[i], flag))
    ensures Indices(one, flag) == Indices(other, flag)
  {
    hide Mentions;
    if one != [] { IndicesSame(one[..|one| - 1], other[..|one| - 1], flag); }
  }

  lemma IndicesSnoc(command: Argv, arg: string, flag: string)
    ensures Indices(command + [arg], flag)
         == Indices(command, flag) + if Mentions(arg, flag) then [|command|] else []
  {
    assert (command + [arg])[..|command|] == command;
  }

  lemma {:induction false} AfterEqualsOf(flag: string, text: string)
    requires '=' !in flag
    ensures AfterEquals(flag + "=" + text) == text
  {
    var arg := flag + "=" + text;
    if flag == "" {
      assert arg == "=" + text;
    } else {
      assert arg[1..] == flag[1..] + "=" + text;
      AfterEqualsOf(flag[1..], text);
    }
  }

  /** A flag that itself contains an equals sign cannot carry a readable inline value. */
  lemma {:induction false} InlineFlagClean(flag: string, arg: string)
    requires flag + "=" <= arg && '=' in flag
    ensures '=' in AfterEquals(arg)
  {
    if flag[0] == '=' {
      assert arg[|flag|] == (flag + "=")[|flag|] == '=';
      assert arg[1..][|flag| - 1] == '=';
    } else {
      assert flag == [flag[0]] + flag[1..];
      assert (flag + "=")[1..] == flag[1..] + "=";
      assert flag[1..] + "=" <= arg[1..];
      InlineFlagClean(flag[1..], arg[1..]);
    }
  }

  lemma StripKeepsEquals(text: string)
    requires '=' in text
    ensures '=' in Strip(text)
  {
    var i :| 0 <= i < |text| && text[i] == '=';
    TrimRightKeeps(text, i);
    TrimLeftKeeps(TrimRight(text), '=');
  }

  lemma {:induction false} TrimLeftKeeps(text: string, c: char)
    requires c in text && !IsSpace(c)
    ensures c in TrimLeft(text)
  {
    if IsSpace(text[0]) { TrimLeftKeeps(text[1..], c); }
  }

  /** A successfully read inline binding has a flag without an equals sign. */
  lemma ReadableInlineFlag(command: Argv, flag: string)
    requires var r := CommandSeed(command, flag); r.Ok? && r.value.Bound? && command[r.value.index] != flag
    ensures '=' !in flag
  {
    var arg := command[CommandSeed(command, flag).value.index];
    if '=' in flag {
      InlineFlagClean(flag, arg);
      StripKeepsEquals(AfterEquals(arg));
      NoEqualsSign(AfterEquals(arg));
    }
  }

  // ---------------------------------------------------------------------------------------------
  // Round trips
  // ---------------------------------------------------------------------------------------------

  /** The seed is, or would be, written into the flag's own argument. */
  predicate Inline(command: Argv, flag: string) {
    var r := CommandSeed(command, flag);
    r.Ok? && r.value.Bound? && command[r.value.index] != flag
  }

  /** The number written as a separate argument does not look like the flag. */
  predicate Writable(command: Argv, flag: string, seed: int) {
    Inline(command, flag) || Str(seed) != flag
  }

  lemma SeedArgument(flag: string, seed: int)
    ensures Mentions(Str(seed), flag) <==> Str(seed) == flag
  {
    StrHasNoEqualsSign(seed);
    InlineHasEquals(flag, Str(seed));
  }

  lemma InlineHasEquals(flag: string, arg: string)
    ensures flag + "=" <= arg ==> '=' in arg
  {
    if flag + "=" <= arg { assert arg[|flag|] == (flag + "=")[|flag|]; }
  }

  lemma InlineRoundTrip(command: Argv, flag: string, seed: int)
    requires Inline(command, flag)
    ensures WithSeed(command, flag, seed).Ok?
    ensures CommandSeed(WithSeed(command, flag, seed).value, flag)
         == Ok(Bound(CommandSeed(command, flag).value.index, seed))
  {
    var index := CommandSeed(command, flag).value.index;
    var written := WithSeed(command, flag, seed).value;
    var arg := flag + "=" + Str(seed);
    ReadableInlineFlag(command, flag);
    assert Mentions(arg, flag) && arg != flag;
    IndicesSame(command, written, flag);
    AfterEqualsOf(flag, Str(seed));
    ParseStr(seed);
  }

  lemma AppendRoundTrip(command: Argv, flag: string, seed: int)
    requires CommandSeed(command, flag) == Ok(Unbound)
    ensures WithSeed(command, flag, seed) == Ok(command + [flag, Str(seed)])
    ensures CommandSeed(command + [flag, Str(seed)], flag)
         == if Str(seed) == flag then Error(AmbiguousFlag) else Ok(Bound(|command|, seed))
  {
    hide AfterEquals, ParseInt, Str, Mentions, Indices;
    assert command + [flag, Str(seed)] == command + [flag] + [Str(seed)];
    IndicesSnoc(command, flag, flag);
    IndicesSnoc(command + [flag], Str(seed), flag);
    MentionsItself(flag);
    SeedArgument(flag, seed);
    ParseStr(seed);
  }

  lemma SeparateRoundTrip(command: Argv, flag: string, seed: int)
    requires var r := CommandSeed(command, flag); r.Ok? && r.value.Bound? && command[r.value.index] == flag
    ensures var index := CommandSeed(command, flag).value.index;
      && WithSeed(command, flag, seed) == Ok(command[index + 1 := Str(seed)])
      && CommandSeed(command[index + 1 := Str(seed)], flag)
         == if Str(seed) == flag then Error(AmbiguousFlag) else Ok(Bound(index, seed))
  {
    hide AfterEquals, ParseInt, Str, Mentions;
    var index := CommandSeed(command, flag).value.index;
    var written := command[index + 1 := Str(seed)];
    SeedArgument(flag, seed);
    ParseStr(seed);
    IndicesExact(command, flag, index + 1);
    if Str(seed) == flag {
      IndicesExact(written, flag, index);
      IndicesExact(written, flag, index + 1);
      assert Mentions(flag, flag) by { MentionsItself(flag); }
      TwoMembers(Indices(written, flag), index, index + 1);
    } else {
      IndicesSame(command, written, flag);
    }
  }

  lemma MentionsItself(flag: string)
    ensures Mentions(flag, flag)
  {
  }

  /**
    Writing succeeds exactly where reading does, and what was written reads back exactly when the number,
    if written on its own, does not look like the flag.
  */
  lemma SeedRoundTrip(command: Argv, flag: string, seed: int)
    ensures WithSeed(command, flag, seed).Ok? <==> CommandSeed(command, flag).Ok?
    ensures WithSeed(command, flag, seed).Ok? ==>
      var read := CommandSeed(WithSeed(command, flag, seed).value, flag);
      && ((read.Ok? && read.value.Bound? && read.value.seed == seed) <==> Writable(command, flag, seed))
      && (!Writable(command, flag, seed) ==> read == Error(AmbiguousFlag))
  {
    if CommandSeed(command, flag).Ok? {
      var before := CommandSeed(command, flag).value;
      if before.Unbound? {
        AppendRoundTrip(command, flag, seed);
      } else if command[before.index] == flag {
        SeparateRoundTrip(command, flag, seed);
      } else {
        InlineRoundTrip(command, flag, seed);
      }
    }
  }

  /** The flag "7" and the seed 7: the written seed is taken for the flag. */
  lemma SeedTakenForFlag()
    ensures WithSeed([], "7", 7) == Ok(["7", "7"]) && CommandSeed(["7", "7"], "7") == Error(AmbiguousFlag)
  {
    assert Str(7) == "7";
    assert CommandSeed([], "7") == Ok(Unbound);
    hide CommandSeed, WithSeed, Str;
    AppendRoundTrip([], "7", 7);
    assert [] + ["7", Str(7)] == ["7", "7"];
  }

  /** A second write overrides the first as if it had never happened, exactly when the first can be read back. */
  lemma LastWriteWins(command: Argv, flag: string, first: int, second: int)
    requires WithSeed(command, flag, first).Ok?
    ensures WithSeed(WithSeed(command, flag, first).value, flag, second) == WithSeed(command, flag, second)
       <==> Writable(command, flag, first)
  {
    if Writable(command, flag, first) {
      OverwritesReadable(command, flag, first, second);
    } else {
      hide CommandSeed, Writable;
      SeedRoundTrip(command, flag, first);
      SeedRoundTrip(command, flag, second);
    }
  }

  lemma OverwritesReadable(command: Argv, flag: string, first: int, second: int)
    requires WithSeed(command, flag, first).Ok? && Writable(command, flag, first)
    ensures WithSeed(WithSeed(command, flag, first).value, flag, second) == WithSeed(command, flag, second)
  {
    hide CommandSeed, AfterEquals, ParseInt, Str, Mentions;
    var before := CommandSeed(command, flag).value;
    if before.Unbound? {
      AppendRoundTrip(command, flag, first);
      AppendRoundTrip(command, flag, second);
      assert (command + [flag, Str(first)])[|command| + 1 := Str(second)] == command + [flag, Str(second)];
    } else if command[before.index] == flag {
      SeparateRoundTrip(command, flag, first);
      var i := before.index;
      assert command[i + 1 := Str(first)][i] == flag;
      assert command[i + 1 := Str(first)][i + 1 := Str(second)] == command[i + 1 := Str(second)];
    } else {
      InlineRoundTrip(command, flag, first);
      ReadableInlineFlag(command, flag);
      var i := before.index;
      assert |flag + "=" + Str(first)| != |flag|;
      assert command[i := flag + "=" + Str(first)][i := flag + "=" + Str(second)]
          == command[i := flag + "=" + Str(second)];
    }
  }

  /** The argument vector without the seed binding. */
  function Unseeded(command: Argv, flag: string): Argv {
    var r := CommandSeed(command, flag);
    if r.Error? || r.value.Unbound? then command
    else
      var i := r.value.index;
      command[..i] + command[if command[i] == flag then i + 2 else i + 1..]
  }

  /** Writing a seed changes the seed binding and nothing else, exactly when it can be read back. */
  lemma OnlyBindingChanges(command: Argv, flag: string, seed: int)
    requires WithSeed(command, flag, seed).Ok?
    ensures Unseeded(WithSeed(command, flag, seed).value, flag) == Unseeded(command, flag)
       <==> Writable(command, flag, seed)
  {
    if Writable(command, flag, seed) {
      ReadableChangesBinding(command, flag, seed);
    } else {
      SeedRoundTrip(command, flag, seed);
      hide CommandSeed, AfterEquals, ParseInt, Str, Mentions;
    }
  }

  lemma ReadableChangesBinding(command: Argv, flag: string, seed: int)
    requires WithSeed(command, flag, seed).Ok? && Writable(command, flag, seed)
    ensures Unseeded(WithSeed(command, flag, seed).value, flag) == Unseeded(command, flag)
  {
    hide CommandSeed, AfterEquals, ParseInt, Str, Mentions;
    var before := CommandSeed(command, flag).value;
    if before.Unbound? {
      AppendRoundTrip(command, flag, seed);
      assert (command + [flag, Str(seed)])[..|command|] == command;
    } else if command[before.index] == flag {
      SeparateRoundTrip(command, flag, seed);
    } else {
      InlineRoundTrip(command, flag, seed);
      assert |flag + "=" + Str(seed)| != |flag|;
    }
  }

  ghost predicate IsArgv(command: Argv) {
    command != [] && forall i :: 0 <= i < |command| ==> command[i] != ""
  }

  lemma WithSeedIsArgv(command: Argv, flag: string, seed: int)
    requires IsArgv(command) && flag != "" && WithSeed(command, flag, seed).Ok?
    ensures IsArgv(WithSeed(command, flag, seed).value)
  {
    hide CommandSeed;
  }

  // ---------------------------------------------------------------------------------------------
  // What is read, from the arguments alone
  // ---------------------------------------------------------------------------------------------

  /** The argument in this place is the flag, or begins with the flag and an equals sign. */
  predicate Stands(command: Argv, flag: string, i: nat) {
    && i < |command| && |flag| <= |command[i]| && command[i][..|flag|] == flag
    && (|command[i]| == |flag| || command[i][|flag|] == '=')
  }

  /** The first equals sign. */
  predicate EqualsAt(arg: string, j: nat) {
    j < |arg| && arg[j] == '=' && forall i :: 0 <= i < j ==> arg[i] != '='
  }

  /** The text behind the first equals sign. */
  ghost predicate Behind(arg: string, text: string) {
    exists j: nat :: EqualsAt(arg, j) && text == arg[j + 1..]
  }

  /** What is read as the seed: the next argument, or nothing behind the last one, or what the flag is set to. */
  ghost predicate SeedText(command: Argv, flag: string, i: nat, text: string)
    requires i < |command|
  {
    if command[i] == flag then text == if i + 1 < |command| then command[i + 1] else ""
    else Behind(command[i], text)
  }

  lemma StandsIs(command: Argv, flag: string, i: nat)
    requires i < |command|
    ensures Stands(command, flag, i) <==> Mentions(command[i], flag)
  {
    var arg := command[i];
    if flag + "=" <= arg {
      assert arg[..|flag|] == (flag + "=")[..|flag|] == flag && arg[|flag|] == (flag + "=")[|flag|];
    }
    if Stands(command, flag, i) && |arg| > |flag| { assert arg[..|flag| + 1] == flag + "="; }
    if Stands(command, flag, i) && |arg| == |flag| { assert arg == arg[..|flag|]; }
  }

  lemma {:induction false} AfterEqualsBehind(arg: string)
    requires '=' in arg
    ensures Behind(arg, AfterEquals(arg))
  {
    if arg[0] == '=' {
      assert EqualsAt(arg, 0);
    } else {
      assert arg == [arg[0]] + arg[1..];
      AfterEqualsBehind(arg[1..]);
      var j: nat :| EqualsAt(arg[1..], j) && AfterEquals(arg[1..]) == arg[1..][j + 1..];
      assert EqualsAt(arg, j + 1) && arg[1..][j + 1..] == arg[j + 2..];
    }
  }

  lemma {:induction false} IndicesIncrease(command: Argv, flag: string)
    ensures forall j, k :: 0 <= j < k < |Indices(command, flag)| ==> Indices(command, flag)[j] < Indices(command, flag)[k]
  {
    hide Mentions;
    if command != [] {
      var n := |command| - 1;
      IndicesIncrease(command[..n], flag);
      forall k | 0 <= k < |Indices(command[..n], flag)| ensures Indices(command[..n], flag)[k] < n { }
    }
  }

  /** The flag stands exactly in the places listed. */
  lemma IndicesAre(command: Argv, flag: string)
    ensures forall i: nat :: i in Indices(command, flag) <==> Stands(command, flag, i)
  {
    forall i: nat ensures i in Indices(command, flag) <==> Stands(command, flag, i) {
      if i < |command| {
        IndicesExact(command, flag, i);
        StandsIs(command, flag, i);
      }
    }
  }

  /** The flag stands once, in this place. */
  ghost predicate Alone(command: Argv, flag: string, i: nat) {
    Stands(command, flag, i) && forall j: nat :: Stands(command, flag, j) ==> j == i
  }

  lemma ListedAlone(command: Argv, flag: string, i: nat)
    requires Alone(command, flag, i)
    ensures Indices(command, flag) == [i]
  {
    IndicesAre(command, flag);
    IndicesIncrease(command, flag);
    hide Indices, Stands;
    var indices := Indices(command, flag);
    assert i in indices;
    forall k | 0 <= k < |indices| ensures indices[k] == i {
      assert indices[k] in indices;
      assert Stands(command, flag, indices[k]);
    }
    var last := |indices| - 1;
    assert indices[0] == i && indices[last] == i;
  }

  /** Without the flag nothing is bound, with more than one it is ambiguous. */
  lemma ReadExactly(command: Argv, flag: string)
    ensures CommandSeed(command, flag) == Ok(Unbound) <==> forall i: nat :: !Stands(command, flag, i)
    ensures CommandSeed(command, flag) == Error(AmbiguousFlag)
       <==> exists i: nat, j: nat :: i < j && Stands(command, flag, i) && Stands(command, flag, j)
  {
    IndicesAre(command, flag);
    IndicesIncrease(command, flag);
    hide Stands, Indices, AfterEquals, ParseInt;
    var indices := Indices(command, flag);
    if |indices| > 1 {
      assert indices[0] in indices && indices[1] in indices && indices[0] < indices[1];
    }
    if |indices| == 1 {
      assert indices[0] in indices;
      forall i: nat, j: nat | Stands(command, flag, i) && Stands(command, flag, j) ensures i == j {
        assert i in indices && j in indices;
      }
    }
  }

  lemma TextIs(command: Argv, flag: string, i: nat, text: string)
    requires Stands(command, flag, i) && SeedText(command, flag, i, text)
    ensures text == if command[i] != flag then AfterEquals(command[i])
                    else if i + 1 < |command| then command[i + 1] else ""
  {
    var arg := command[i];
    if arg != flag {
      assert arg[..|arg|] == arg;
      assert arg[|flag|] == '=';
      AfterEqualsBehind(arg);
      FirstEquals(arg, AfterEquals(arg), text);
    }
  }

  /** With one it is bound to the integer in its text, if there is one. */
  lemma ReadAlone(command: Argv, flag: string, i: nat, text: string)
    requires Alone(command, flag, i) && SeedText(command, flag, i, text)
    ensures CommandSeed(command, flag)
         == match ParseInt(text) case None => Error(NotAnInteger) case Some(seed) => Ok(Bound(i, seed))
  {
    ListedAlone(command, flag, i);
    TextIs(command, flag, i, text);
    hide Alone, SeedText, CommandSeed, ParseInt;
    ReadListed(command, flag, i);
  }

  lemma ReadListed(command: Argv, flag: string, i: nat)
    requires i < |command| && Indices(command, flag) == [i]
    ensures var text := if command[i] != flag then AfterEquals(command[i])
                        else if i + 1 < |command| then command[i + 1] else "";
      CommandSeed(command, flag)
      == match ParseInt(text) case None => Error(NotAnInteger) case Some(seed) => Ok(Bound(i, seed))
  {
    hide Indices, ParseInt, AfterEquals, Mentions;
  }

  lemma FirstEquals(arg: string, one: string, other: string)
    requires Behind(arg, one) && Behind(arg, other)
    ensures one == other
  {
    var j: nat :| EqualsAt(arg, j) && one == arg[j + 1..];
    var k: nat :| EqualsAt(arg, k) && other == arg[k + 1..];
    assert j == k;
  }

  /** An argument list without its binding: the one or two arguments that bind the seed are taken out. */
  lemma UnseededExactly(command: Argv, flag: string)
    ensures var r := CommandSeed(command, flag);
      if r.Ok? && r.value.Bound? then
        var i := r.value.index;
        var width := if command[i] == flag then 2 else 1;
        && |Unseeded(command, flag)| == |command| - width
        && (forall k :: 0 <= k < i ==> Unseeded(command, flag)[k] == command[k])
        && forall k :: i <= k < |command| - width ==> Unseeded(command, flag)[k] == command[k + width]
      else Unseeded(command, flag) == command
  {
    hide CommandSeed;
  }
}
