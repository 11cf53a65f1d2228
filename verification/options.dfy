/**
 Command-line option handling of FindTweets.parseOptions. The tokenising done
 by getopt is not modelled; its result is the input: either an error or the
 recognised (flag, argument) pairs followed by the leftover arguments.
 */
module Options {
  import opened OptionStore

  const EXIT_ERROR: int := 1
  const EXIT_SUCCESS: int := 0

  /** The flags getopt recognises for the option string "ht:u:v". */
  datatype Flag = Help | Tag | User | Verbose

  type Pair = (Flag, string)

  /** What getopt returns: a parse error, or the option pairs in command-line
      order together with the remaining positional arguments. */
  datatype Getopt = GetoptError | Parsed(opts: seq<Pair>, args: seq<string>)

  /** The Usage exception: carries the process exit code. */
  datatype Usage = Usage(code: int)

  /** Everything option parsing writes: the option dictionary and the
      verbosity counter. */
  datatype State = State(opts: Store, verbosity: nat)

  const Initial: State := State(Defaults, 0)

  function TagsOf(st: State): seq<string>
    requires WellFormed(st.opts)
  {
    st.opts[TagsKey].items
  }

  function UserOf(st: State): string
    requires WellFormed(st.opts)
  {
    st.opts[UserKey].text
  }

  /** The name getopt reports for each flag. */
  function Name(f: Flag): (s: string)
    ensures |s| == 2 && s[0] == '-'
  {
    match f
    case Help => "-h"
    case Tag => "-t"
    case User => "-u"
    case Verbose => "-v"
  }

  /** `needle` occurs in `hay` starting at index `i`. */
  predicate OccursAt(hay: string, needle: string, i: int) {
    0 <= i <= |hay| - |needle| && hay[i..i + |needle|] == needle
  }

  /** Python's `needle in hay` on two strings: a substring test. */
  ghost predicate Contains(hay: string, needle: string) {
    exists i :: OccursAt(hay, needle, i)
  }

  /** The loop tests each option with `o in ("-h")`, which is a substring test
      on a string rather than a tuple membership test. For every name getopt
      can report it coincides with equality, so the model compares flags. */
  lemma FlagTestIsEquality(o: Flag, f: Flag)
    ensures Contains(Name(f), Name(o)) <==> o == f
  {
    if o == f {
      assert OccursAt(Name(f), Name(o), 0);
    } else {
      assert Name(f)[1] != Name(o)[1];
      assert Name(f)[0..2] == Name(f);
    }
  }

  // Reference definitions of what the option loop accumulates.

  predicate HasFlag(opts: seq<Pair>, f: Flag) {
    exists i :: 0 <= i < |opts| && opts[i].0 == f
  }

  /** A flag occurs in a non-empty list when it heads the list or occurs in the rest. */
  lemma HasFlagCons(opts: seq<Pair>, f: Flag)
    requires |opts| > 0
    ensures HasFlag(opts, f) <==> opts[0].0 == f || HasFlag(opts[1..], f)
  {
    if HasFlag(opts[1..], f) {
      var i :| 0 <= i < |opts[1..]| && opts[1..][i].0 == f;
      assert opts[i + 1].0 == f;
    }
    if HasFlag(opts, f) && opts[0].0 != f {
      var i :| 0 <= i < |opts| && opts[i].0 == f;
      assert opts[1..][i - 1].0 == f;
    }
  }

  /** The arguments of all `-t` pairs, in command-line order. */
  function TagArgs(opts: seq<Pair>): (r: seq<string>)
    ensures |r| == Count(opts, Tag)
  {
    if |opts| == 0 then []
    else (if opts[0].0 == Tag then [opts[0].1] else []) + TagArgs(opts[1..])
  }

  /** The number of pairs carrying flag `f`. */
  function Count(opts: seq<Pair>, f: Flag): (n: nat)
    ensures n > 0 <==> HasFlag(opts, f)
  {
    if |opts| == 0 then 0
    else
      HasFlagCons(opts, f);
      (if opts[0].0 == f then 1 else 0) + Count(opts[1..], f)
  }

  /** The argument of the last `-u` pair, or `fallback` when there is none. */
  function LastUserOr(opts: seq<Pair>, fallback: string): string {
    if |opts| == 0 then fallback
    else if opts[|opts| - 1].0 == User then opts[|opts| - 1].1
    else LastUserOr(opts[..|opts| - 1], fallback)
  }

  /** LastUserOr picks a `-u` argument with no `-u` after it, and falls back
      only when no `-u` is present at all. */
  lemma {:induction false} LastUserOrIsLast(opts: seq<Pair>, fallback: string)
    ensures !HasFlag(opts, User) ==> LastUserOr(opts, fallback) == fallback
    ensures HasFlag(opts, User) ==>
      exists i :: 0 <= i < |opts| && opts[i] == (User, LastUserOr(opts, fallback))
                  && forall j :: i < j < |opts| ==> opts[j].0 != User
  {
    if |opts| > 0 {
      var n := |opts| - 1;
      var front := opts[..n];
      if opts[n].0 == User {
        assert opts[n] == (User, LastUserOr(opts, fallback));
      } else {
        LastUserOrIsLast(front, fallback);
        if HasFlag(opts, User) {
          var k :| 0 <= k < |opts| && opts[k].0 == User;
          assert front[k].0 == User;
          var i :| 0 <= i < |front| && front[i] == (User, LastUserOr(front, fallback))
                   && forall j :: i < j < |front| ==> front[j].0 != User;
          assert opts[i] == front[i];
          assert forall j :: i < j < |opts| ==> opts[j].0 != User by {
            forall j | i < j < |opts| ensures opts[j].0 != User {
              if j < n { assert opts[j] == front[j]; }
            }
          }
        } else {
          assert !HasFlag(front, User) by {
            forall k | 0 <= k < |front| ensures front[k].0 != User {
              assert front[k] == opts[k];
            }
          }
        }
      }
    }
  }

  /** Peeling the first pair off: LastUserOr of the rest, starting from the
      user that first pair leaves behind. */
  lemma {:induction false} LastUserOrCons(p: Pair, rest: seq<Pair>, fallback: string)
    ensures LastUserOr([p] + rest, fallback)
         == LastUserOr(rest, if p.0 == User then p.1 else fallback)
    decreases |rest|
  {
    var s := [p] + rest;
    if |rest| > 0 {
      var n := |rest| - 1;
      assert s[|s| - 1] == rest[n];
      assert s[..|s| - 1] == [p] + rest[..n];
      LastUserOrCons(p, rest[..n], fallback);
    }
  }

  /** Either the loop continues with a new state, or a Usage was raised. */
  datatype Step = Continue(state: State) | Raise(usage: Usage)

  /** One iteration of the option loop of parseOptions. */
  function ApplyOne(st: State, p: Pair): (r: Step)
    requires WellFormed(st.opts)
    ensures r.Raise? <==> p.0 == Help
    ensures r.Raise? ==> r.usage == Usage(EXIT_SUCCESS)
    ensures r.Continue? ==> WellFormed(r.state.opts)
  {
    match p.0
    case Help => Raise(Usage(EXIT_SUCCESS))
    case Tag =>
      // the list is fetched with getOpt, extended, and stored back with setOpt
      var tags := GetOpt(st.opts, TagsKey).value.items;
      Continue(st.(opts := SetOpt(st.opts, TagsKey, Items(tags + [p.1]))))
    case User => Continue(st.(opts := SetOpt(st.opts, UserKey, Text(p.1))))
    case Verbose => Continue(st.(verbosity := st.verbosity + 1))
  }

  /** The whole option loop, from state `st`: stops at the first `-h`, else
      appends every `-t` argument, keeps the last `-u` argument and counts
      every `-v`. */
  function ApplyAll(st: State, opts: seq<Pair>): (r: Step)
    requires WellFormed(st.opts)
    ensures r.Raise? <==> HasFlag(opts, Help)
    ensures r.Raise? ==> r.usage == Usage(EXIT_SUCCESS)
    ensures r.Continue? ==> WellFormed(r.state.opts)
    ensures r.Continue? ==> TagsOf(r.state) == TagsOf(st) + TagArgs(opts)
    ensures r.Continue? ==> UserOf(r.state) == LastUserOr(opts, UserOf(st))
    ensures r.Continue? ==> r.state.verbosity == st.verbosity + Count(opts, Verbose)
    decreases |opts|
  {
    if |opts| == 0 then Continue(st)
    else
      assert opts == [opts[0]] + opts[1..];
      HasFlagCons(opts, Help);
      LastUserOrCons(opts[0], opts[1..], UserOf(st));
      match ApplyOne(st, opts[0])
      case Raise(u) => Raise(u)
      case Continue(next) => ApplyAll(next, opts[1..])
  }

  /** The state and leftover arguments parseOptions produces, or the Usage it raises. */
  datatype Parsed = Proceed(state: State, args: seq<string>) | Abort(usage: Usage)

  /** parseOptions, starting from a freshly constructed object. */
  function ParseOptions(g: Getopt): (r: Parsed)
    ensures g.GetoptError? ==> r == Abort(Usage(EXIT_ERROR))
    ensures g.Parsed? ==> (r.Abort? <==> HasFlag(g.opts, Help))
    ensures g.Parsed? && r.Abort? ==> r.usage == Usage(EXIT_SUCCESS)
    ensures r.Proceed? ==> g.Parsed? && r.args == g.args
    ensures r.Proceed? ==> WellFormed(r.state.opts)
    ensures r.Proceed? ==> TagsOf(r.state) == TagArgs(g.opts)
    ensures r.Proceed? ==> UserOf(r.state) == LastUserOr(g.opts, "")
    ensures r.Proceed? ==> r.state.verbosity == Count(g.opts, Verbose)
  {
    match g
    case GetoptError => Abort(Usage(EXIT_ERROR))
    case Parsed(opts, args) =>
      DefaultsWellFormed();
      match ApplyAll(Initial, opts)
      case Raise(u) => Abort(u)
      case Continue(st) => Proceed(st, args)
  }

  /** The user ParseOptions settles on is the argument of the last `-u`, or
      the empty default when no `-u` was given. */
  lemma ParseOptionsUser(opts: seq<Pair>, args: seq<string>)
    requires !HasFlag(opts, Help)
    ensures ParseOptions(Parsed(opts, args)).Proceed?
    ensures var u := UserOf(ParseOptions(Parsed(opts, args)).state);
      && (!HasFlag(opts, User) ==> u == "")
      && (HasFlag(opts, User) ==>
            exists i :: 0 <= i < |opts| && opts[i] == (User, u)
                        && forall j :: i < j < |opts| ==> opts[j].0 != User)
  {
    LastUserOrIsLast(opts, "");
  }

  /** The options `-t foo -t bar -u alice` give tags ["foo", "bar"] and user "alice". */
  lemma ExampleTagsAndUser()
    ensures var r := ParseOptions(Parsed([(Tag, "foo"), (Tag, "bar"), (User, "alice")], []));
      r.Proceed? && TagsOf(r.state) == ["foo", "bar"] && UserOf(r.state) == "alice"
      && r.state.verbosity == 0
  {
    var opts := [(Tag, "foo"), (Tag, "bar"), (User, "alice")];
    assert !HasFlag(opts, Help);
    assert TagArgs(opts) == ["foo", "bar"] by {
      assert opts[1..][1..] == [(User, "alice")];
    }
    assert opts[..2][..1] == [(Tag, "foo")];
  }
}
