/** `classNames(...classes)`, defined identically in the shop page and the
    navigation bar: drop the falsy arguments, join the rest with one space. */
module ClassNames {
  import opened JsValues
  import Seqs
  import Text

  /** An argument is a class string or a falsy non-string (`false`, `null`,
      `undefined`), shown as `None`. */
  type ClassArg = Option<string>

  function Texts(args: seq<ClassArg>): (r: seq<string>)
    ensures |r| == |args|
    ensures forall i :: 0 <= i < |args| ==> r[i] == args[i].OrElse("")
  {
    seq(|args|, i requires 0 <= i < |args| => args[i].OrElse(""))
  }

  /** Every truthy argument is included in the joined truthy arguments. */
  lemma TruthyArgsIncluded(args: seq<ClassArg>)
    ensures forall i :: 0 <= i < |args| && TextTruthy(args[i]) ==>
      Text.Includes(Text.Join(Texts(Seqs.Filter(args, TextTruthy)), ' '), args[i].value)
  {
    var kept := Seqs.Filter(args, TextTruthy);
    var parts := Texts(kept);
    Text.JoinIncludes(parts, ' ');
    forall i | 0 <= i < |args| && TextTruthy(args[i])
      ensures Text.Includes(Text.Join(parts, ' '), args[i].value)
    {
      Seqs.FilterMembers(args, TextTruthy, args[i]);
      var j :| 0 <= j < |kept| && kept[j] == args[i];
      assert parts[j] == args[i].value;
    }
  }

  /** The truthy arguments, in their order, joined by single spaces; falsy
      arguments leave no trace. */
  function ClassNames(args: seq<ClassArg>): (r: string)
    ensures forall i :: 0 <= i < |args| && TextTruthy(args[i]) ==> Text.Includes(r, args[i].value)
  {
    TruthyArgsIncluded(args);
    Text.Join(Texts(Seqs.Filter(args, TextTruthy)), ' ')
  }

  /** Adding an argument at the front: a falsy one changes nothing, a truthy
      one is prepended, with a space only when something follows it. */
  lemma ClassNamesCons(a: ClassArg, rest: seq<ClassArg>)
    ensures !TextTruthy(a) ==> ClassNames([a] + rest) == ClassNames(rest)
    ensures TextTruthy(a) ==>
      ClassNames([a] + rest) == (if ClassNames(rest) == "" then a.value else a.value + " " + ClassNames(rest))
  {
    Seqs.FilterCons(a, rest, TextTruthy);
    var kept := Seqs.Filter(rest, TextTruthy);
    if TextTruthy(a) {
      assert Seqs.Filter([a] + rest, TextTruthy) == [a] + kept;
      var parts := Texts([a] + kept);
      assert parts[0] == a.value;
      assert parts[1..] == Texts(kept);
      if |kept| > 0 {
        assert Texts(kept)[0] != "";
        assert |Text.Join(Texts(kept), ' ')| >= |Texts(kept)[0]|;
        assert Text.Join(parts, ' ') == a.value + [' '] + Text.Join(Texts(kept), ' ');
      }
    } else {
      assert Seqs.Filter([a] + rest, TextTruthy) == kept;
    }
  }

  /** Splitting the result on spaces gives the fields of each truthy
      argument in turn, so a multi-class string contributes each of its
      classes; with no truthy argument the result is the single empty field. */
  lemma ClassNamesFields(args: seq<ClassArg>)
    ensures Text.Split(ClassNames(args), ' ') ==
      if Seqs.Filter(args, TextTruthy) == [] then [""]
      else Text.SplitAll(Texts(Seqs.Filter(args, TextTruthy)), ' ')
  {
    var kept := Seqs.Filter(args, TextTruthy);
    if kept != [] {
      Text.SplitJoinAll(Texts(kept), ' ');
    }
  }

  /** No space-separated field of the result is empty (no leading, trailing
      or doubled space) exactly when some argument is truthy and no truthy
      argument has an empty field of its own. */
  lemma ClassNamesNoEmptyField(args: seq<ClassArg>)
    ensures "" !in Text.Split(ClassNames(args), ' ') <==>
      (exists i :: 0 <= i < |args| && TextTruthy(args[i])) &&
      forall i :: 0 <= i < |args| && TextTruthy(args[i]) ==> "" !in Text.Split(args[i].value, ' ')
  {
    ClassNamesFields(args);
    var kept := Seqs.Filter(args, TextTruthy);
    if kept != [] {
      var parts := Texts(kept);
      Text.SplitAllEmptyField(parts, ' ');
      Seqs.FilterMembers(args, TextTruthy, kept[0]);
      if exists j :: 0 <= j < |parts| && "" in Text.Split(parts[j], ' ') {
        var j :| 0 <= j < |parts| && "" in Text.Split(parts[j], ' ');
        Seqs.FilterMembers(args, TextTruthy, kept[j]);
        var i :| 0 <= i < |args| && args[i] == kept[j];
        assert TextTruthy(args[i]) && "" in Text.Split(args[i].value, ' ');
      }
      if exists i :: 0 <= i < |args| && TextTruthy(args[i]) && "" in Text.Split(args[i].value, ' ') {
        var i :| 0 <= i < |args| && TextTruthy(args[i]) && "" in Text.Split(args[i].value, ' ');
        Seqs.FilterMembers(args, TextTruthy, args[i]);
        var j :| 0 <= j < |kept| && kept[j] == args[i];
        assert "" in Text.Split(parts[j], ' ');
      }
    }
  }

  /** The navigation link styling: a fixed multi-class string, a falsy
      conditional class dropped, and a chosen class appended. */
  lemma ClassNamesExample()
    ensures ClassNames([Some("px-3 py-2"), None, Some("bg-orange-500")]) == "px-3 py-2" + " " + "bg-orange-500"
  {
    var a: ClassArg, c: ClassArg := Some("px-3 py-2"), Some("bg-orange-500");
    assert ClassNames([]) == "";
    ClassNamesCons(c, []);
    assert [c] + [] == [c];
    assert ClassNames([c]) == "bg-orange-500";
    ClassNamesCons(None, [c]);
    assert [None] + [c] == [None, c];
    assert ClassNames([None, c]) == "bg-orange-500";
    ClassNamesCons(a, [None, c]);
    assert [a] + [None, c] == [a, None, c];
  }

  /** The result is empty exactly when every argument is falsy. */
  lemma ClassNamesEmpty(args: seq<ClassArg>)
    ensures ClassNames(args) == "" <==> forall i :: 0 <= i < |args| ==> !TextTruthy(args[i])
  {
    var kept := Seqs.Filter(args, TextTruthy);
    if exists i :: 0 <= i < |args| && TextTruthy(args[i]) {
      var k :| 0 <= k < |args| && TextTruthy(args[k]);
      Seqs.FilterMembers(args, TextTruthy, args[k]);
      assert TextTruthy(kept[0]);
      var parts := Texts(kept);
      assert parts[0] != "";
      assert |Text.Join(parts, ' ')| >= |parts[0]|;
    } else if |kept| > 0 {
      Seqs.FilterMembers(args, TextTruthy, kept[0]);
    }
  }
}
