/** The kubelet argument list, generated flags first and user flags last, and the look-up of a flag in it. */
module KubeletFlags {
  import opened Text

  // ----- Looking a flag up: the last non-empty value wins -----

  /** The value that one argument gives to the flag, or "" if it gives none. */
  function ValueIn(arg: string, flag: string): string
  {
    var prefix := "--" + flag + "=";
    if |arg| > |prefix| && arg[..|prefix|] == prefix then arg[|prefix|..] else ""
  }

  function LastValue(args: seq<string>, flag: string): string
  {
    if args == [] then ""
    else
      var last := ValueIn(args[|args| - 1], flag);
      if last != "" then last else LastValue(args[..|args| - 1], flag)
  }

  method ExtractFlagValue(args: seq<string>, flag: string) returns (value: string)
    ensures value == LastValue(args, flag)
  {
    var prefix := "--" + flag + "=";
    value := "";
    for i := 0 to |args|
      invariant value == LastValue(args[..i], flag)
    {
      assert args[..i + 1][..i] == args[..i] && args[..i + 1][i] == args[i];
      if |args[i]| > |prefix| && args[i][..|prefix|] == prefix {
        value := args[i][|prefix|..];
      }
    }
    assert args[..|args|] == args;
  }

  lemma {:induction false} LastValueAppend(xs: seq<string>, ys: seq<string>, flag: string)
    ensures LastValue(xs + ys, flag) == if LastValue(ys, flag) != "" then LastValue(ys, flag) else LastValue(xs, flag)
  {
    if ys == [] {
      assert xs + ys == xs;
    } else {
      var n := |ys| - 1;
      assert (xs + ys)[..|xs + ys| - 1] == xs + ys[..n] && (xs + ys)[|xs + ys| - 1] == ys[n];
      LastValueAppend(xs, ys[..n], flag);
    }
  }

  /** LastValue is the value of the last argument, at position i, that gives the flag a non-empty one. */
  lemma {:induction false} LastValueIsTheLast(args: seq<string>, flag: string) returns (i: int)
    ensures -1 <= i < |args| && (i == -1 <==> LastValue(args, flag) == "")
    ensures i >= 0 ==> ValueIn(args[i], flag) == LastValue(args, flag)
    ensures forall j :: i < j < |args| ==> ValueIn(args[j], flag) == ""
  {
    if args == [] {
      i := -1;
    } else if ValueIn(args[|args| - 1], flag) != "" {
      i := |args| - 1;
    } else {
      var init := args[..|args| - 1];
      i := LastValueIsTheLast(init, flag);
      forall j | i < j < |args|
        ensures ValueIn(args[j], flag) == ""
      {
        if j < |init| {
          assert init[j] == args[j];
        }
      }
    }
  }

  // ----- Rendering -----

  function RenderOne(flag: string, value: string): string
  {
    "--" + flag + "=" + value
  }

  function RenderInOrder(flags: map<string, string>, order: seq<string>): seq<string>
    requires forall f :: f in order ==> f in flags
  {
    if order == [] then []
    else
      var n := |order| - 1;
      RenderInOrder(flags, order[..n]) + [RenderOne(order[n], flags[order[n]])]
  }

  /** order lists every key of the map once. */
  ghost predicate IsOrderOf(order: seq<string>, keys: set<string>)
  {
    && (forall f :: f in order <==> f in keys)
    && (forall i, j :: 0 <= i < j < |order| ==> order[i] != order[j])
  }

  function Assignment(name: string, value: string): string
  {
    name + "=\"" + value + "\""
  }

  function AssignInOrder(environment: map<string, string>, order: seq<string>): seq<string>
    requires forall name :: name in order ==> name in environment
  {
    if order == [] then []
    else
      var n := |order| - 1;
      AssignInOrder(environment, order[..n]) + [Assignment(order[n], environment[order[n]])]
  }

  class EnvironmentFile {
    var content: string
    ghost var faulted: bool  // whether any write has failed

    constructor ()
      ensures content == "" && !faulted
    {
      content, faulted := "", false;
    }

    /** Replaces the content; a failing write may leave any part of the new one. */
    method Write(text: string) returns (ok: bool)
      modifies this
      ensures ok ==> content == text
      ensures !ok ==> content == old(content) || content <= text
      ensures faulted <==> old(faulted) || !ok
    {
      ok := *;
      var n: int := *;
      if ok {
        content := text;
      } else {
        faulted := true;
        if 0 <= n < |text| {
          content := text[..n];
        }
      }
    }
  }

  const ARGS_NAME := "NODEADM_KUBELET_ARGS"

  class Kubelet {
    const flags: map<string, string>
    const userFlags: seq<string>
    var environment: map<string, string>

    constructor (flags: map<string, string>, userFlags: seq<string>, environment: map<string, string>)
      ensures this.flags == flags && this.userFlags == userFlags && this.environment == environment
    {
      this.flags, this.userFlags, this.environment := flags, userFlags, environment;
    }

    /** The argument list, with the generated flags in whatever order the map is walked. */
    method FlagList() returns (args: seq<string>)
      ensures exists order :: IsOrderOf(order, flags.Keys) && args == RenderInOrder(flags, order) + userFlags
    {
      args := [];
      ghost var order: seq<string> := [];
      var todo := flags.Keys;
      while todo != {}
        invariant todo <= flags.Keys
        invariant IsOrderOf(order, flags.Keys - todo)
        invariant args == RenderInOrder(flags, order)
        decreases |todo|
      {
        var flag :| flag in todo;
        assert (order + [flag])[..|order|] == order;
        args := args + [RenderOne(flag, flags[flag])];
        order := order + [flag];
        todo := todo - {flag};
      }
      args := args + userFlags;
    }

    /** The lines of the environment file, in whatever order the map is walked. */
    method EnvironmentLines() returns (lines: seq<string>)
      ensures exists order :: IsOrderOf(order, environment.Keys) && lines == AssignInOrder(environment, order)
    {
      lines := [];
      ghost var order: seq<string> := [];
      var todo := environment.Keys;
      while todo != {}
        invariant todo <= environment.Keys
        invariant IsOrderOf(order, environment.Keys - todo)
        invariant lines == AssignInOrder(environment, order)
        decreases |todo|
      {
        var name :| name in todo;
        assert (order + [name])[..|order|] == order;
        lines := lines + [Assignment(name, environment[name])];
        order := order + [name];
        todo := todo - {name};
      }
    }

    /**
     Stores the argument list, joined by spaces, in the kubelet's environment, changes nothing else there, and
     writes the whole environment to the file.
     */
    method WriteKubeletEnvironment(file: EnvironmentFile) returns (ok: bool)
      requires file != this as object
      modifies this, file
      ensures exists order :: IsOrderOf(order, flags.Keys)
                && environment
                   == old(environment)["NODEADM_KUBELET_ARGS" := Join(RenderInOrder(flags, order) + userFlags, ' ')]
      ensures file.faulted <==> old(file.faulted) || !ok
      ensures ok ==>
                exists order :: IsOrderOf(order, environment.Keys)
                                && file.content == Join(AssignInOrder(environment, order), '\n')
    {
      var args := FlagList();
      environment := environment[ARGS_NAME := Join(args, ' ')];
      var lines := EnvironmentLines();
      ok := file.Write(Join(lines, '\n'));
    }
  }

  // ----- The texts of flags and assignments -----

  /** Each generated flag is rendered with two hyphens and an equals sign, and is read back from that text. */
  lemma {:induction false} RenderedText(flags: map<string, string>, order: seq<string>, flag: string)
    requires (forall f :: f in order ==> f in flags) && flag in order
    ensures "--" + flag + "=" + flags[flag] in RenderInOrder(flags, order)
    ensures LastValue(["--" + flag + "=" + flags[flag]], flag) == flags[flag]
  {
    var n := |order| - 1;
    if order[n] != flag {
      RenderedText(flags, order[..n], flag);
    }
    var arg, prefix := "--" + flag + "=" + flags[flag], "--" + flag + "=";
    assert arg[..|prefix|] == prefix && arg[|prefix|..] == flags[flag];
    var none: seq<string> := [];
    assert [arg][..0] == none && LastValue(none, flag) == "";
  }

  /** Each variable of the environment is written with its value in double quotes. */
  lemma {:induction false} AssignedText(environment: map<string, string>, order: seq<string>, name: string)
    requires (forall x :: x in order ==> x in environment) && name in order
    ensures name + "=\"" + environment[name] + "\"" in AssignInOrder(environment, order)
  {
    var n := |order| - 1;
    if order[n] != name {
      AssignedText(environment, order[..n], name);
    }
  }

  /** There is one line for each variable. */
  lemma {:induction false} AssignedOnce(environment: map<string, string>, order: seq<string>)
    requires forall x :: x in order ==> x in environment
    ensures |AssignInOrder(environment, order)| == |order|
  {
    if order != [] {
      AssignedOnce(environment, order[..|order| - 1]);
    }
  }

  // ----- Precedence of user flags -----

  lemma ValueInRendered(name: string, flag: string, value: string)
    requires '=' !in name && '=' !in flag
    ensures ValueIn(RenderOne(name, value), flag) == if name == flag then value else ""
  {
    var arg := RenderOne(name, value);
    var prefix := "--" + flag + "=";
    assert arg == "--" + (name + ['='] + value);
    if |arg| > |prefix| && arg[..|prefix|] == prefix {
      var rest := name + ['='] + value;
      assert arg[2..] == rest;
      assert rest[..|flag| + 1] == arg[..|prefix|][2..] == flag + "=";
      assert rest == flag + ['='] + rest[|flag| + 1..];
      FindAt(name, '=', value);
      FindAt(flag, '=', rest[|flag| + 1..]);
      assert name == rest[..|name|] && flag == rest[..|flag|];
      assert arg[|prefix|..] == value;
    } else if name == flag {
      assert arg == prefix + value;
    }
  }

  lemma LastValueNext(args: seq<string>, arg: string, flag: string)
    ensures LastValue(args + [arg], flag) == if ValueIn(arg, flag) != "" then ValueIn(arg, flag) else LastValue(args, flag)
  {
    assert (args + [arg])[..|args|] == args;
  }

  lemma {:induction false} LastGenerated(flags: map<string, string>, order: seq<string>, flag: string)
    requires forall f :: f in order ==> f in flags && '=' !in f
    requires forall i, j :: 0 <= i < j < |order| ==> order[i] != order[j]
    requires '=' !in flag
    ensures LastValue(RenderInOrder(flags, order), flag) == if flag in order then flags[flag] else ""
  {
    if order != [] {
      var n := |order| - 1;
      var init := order[..n];
      LastGenerated(flags, init, flag);
      ValueInRendered(order[n], flag, flags[order[n]]);
      LastValueNext(RenderInOrder(flags, init), RenderOne(order[n], flags[order[n]]), flag);
      assert order == init + [order[n]] && order[n] !in init;
    }
  }

  /**
   Whatever order the generated flags are rendered in, looking a flag up gives the user's last non-empty value
   if there is one, and the generated value otherwise.
   */
  lemma UserFlagsWin(flags: map<string, string>, order: seq<string>, userFlags: seq<string>, flag: string)
    requires IsOrderOf(order, flags.Keys)
    requires '=' !in flag && forall f :: f in flags ==> '=' !in f
    ensures LastValue(RenderInOrder(flags, order) + userFlags, flag)
            == if LastValue(userFlags, flag) != "" then LastValue(userFlags, flag)
               else if flag in flags then flags[flag]
               else ""
  {
    LastValueAppend(RenderInOrder(flags, order), userFlags, flag);
    LastGenerated(flags, order, flag);
  }
}
