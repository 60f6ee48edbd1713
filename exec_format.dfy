/** `ProgramResult::format_exec`: strips the field codes of a desktop entry's
    `Exec` value by a fixed chain of left-to-right replacements. */
module ExecFormat {
  import opened Text

  /** The five replacements of the chain, in the order they are applied:
      `%f`, `%F` deleted, `%D` turned into `~`, `%u`, `%U` deleted. */
  function FormatExec(exec: string): (r: string)
    // never longer than the raw command
    ensures |r| <= |exec|
    // a command with none of the five codes passes through unchanged
    ensures !HasFieldCode(exec) ==> r == exec
  {
    var noFile := Replace(exec, "%f", "");
    var noFiles := Replace(noFile, "%F", "");
    var noDir := Replace(noFiles, "%D", "~");
    var noUrl := Replace(noDir, "%u", "");
    assert !HasFieldCode(exec) ==> Replace(noUrl, "%U", "") == exec by {
      if !HasFieldCode(exec) {
        ReplaceAbsent(exec, "%f", "");
        ReplaceAbsent(exec, "%F", "");
        ReplaceAbsent(exec, "%D", "~");
        ReplaceAbsent(exec, "%u", "");
        ReplaceAbsent(exec, "%U", "");
      }
    }
    Replace(noUrl, "%U", "")
  }

  /** True when `s` holds one of the five field codes the chain rewrites. */
  predicate HasFieldCode(s: string) {
    Occurs(s, "%f") || Occurs(s, "%F") || Occurs(s, "%D") || Occurs(s, "%u") || Occurs(s, "%U")
  }

  /** In particular a command without any `%` passes through unchanged. */
  lemma FormatExecKeepsPercentFree(exec: string)
    requires '%' !in exec
    ensures FormatExec(exec) == exec
  {
    AbsentCharNoMatch(exec, "%f", 0);
    AbsentCharNoMatch(exec, "%F", 0);
    AbsentCharNoMatch(exec, "%D", 0);
    AbsentCharNoMatch(exec, "%u", 0);
    AbsentCharNoMatch(exec, "%U", 0);
  }

  /** Each field code is found only where the scan reaches it: a code that
      follows text holding no `%` is rewritten in place. */
  lemma {:induction false} ReplaceAfterPlain(a: string, pat: string, b: string, rep: string)
    requires |pat| == 2 && pat[0] == '%'
    requires '%' !in a
    ensures Replace(a + pat + b, pat, rep) == a + rep + Replace(b, pat, rep)
  {
    forall i: nat | i < |a| ensures !MatchAt(a + pat + b, pat, i) {
      assert (a + pat + b)[i] == a[i];
    }
    ReplaceLeftmost(a, pat, b, rep);
  }

  /** When only the first and the last link of the chain find something,
      the other three leave the string as it is. */
  lemma FormatExecFirstAndLast(exec: string, afterFirst: string, r: string)
    requires Replace(exec, "%f", "") == afterFirst
    requires !Occurs(afterFirst, "%F") && !Occurs(afterFirst, "%D") && !Occurs(afterFirst, "%u")
    requires Replace(afterFirst, "%U", "") == r
    ensures FormatExec(exec) == r
  {
    ReplaceAbsent(afterFirst, "%F", "");
    ReplaceAbsent(afterFirst, "%D", "~");
    ReplaceAbsent(afterFirst, "%u", "");
  }

  /** `format_exec("app %f --flag %U")` is `"app  --flag "`: the codes are cut
      out and the spaces around them stay. */
  lemma FormatExecFlagExample()
    ensures FormatExec("app %f --flag %U") == "app  --flag "
  {
    var exec := "app %f --flag %U";
    assert exec == "app " + "%f" + (" --flag " + "%U");
    var afterFirst := FlagFirstLink(exec, "app ", " --flag ", "%U");
    FlagLastLink("app ", " --flag ", afterFirst);
    FormatExecFirstAndLast(exec, afterFirst, "app  --flag ");
  }

  lemma FlagFirstLink(exec: string, head: string, mid: string, tail: string) returns (afterFirst: string)
    requires head == "app " && mid == " --flag " && tail == "%U"
    requires exec == head + "%f" + (mid + tail)
    ensures afterFirst == head + mid + tail
    ensures Replace(exec, "%f", "") == afterFirst
  {
    ReplaceAfterPlain(head, "%f", mid + tail, "");
    AbsentCharNoMatch(mid, "%f", 0);
    AbsentCharNoMatch(tail, "%f", 1);
    PairAcrossConcat(mid, tail, "%f");
    ReplaceAbsent(mid + tail, "%f", "");
    afterFirst := head + mid + tail;
    assert head + "" + (mid + tail) == afterFirst;
  }

  lemma FlagLastLink(head: string, mid: string, s: string)
    requires head == "app " && mid == " --flag " && s == head + mid + "%U"
    ensures !Occurs(s, "%F") && !Occurs(s, "%D") && !Occurs(s, "%u")
    ensures Replace(s, "%U", "") == "app  --flag "
  {
    AbsentCharNoMatch(s, "%F", 1);
    AbsentCharNoMatch(s, "%D", 1);
    AbsentCharNoMatch(s, "%u", 1);
    assert s == (head + mid) + "%U" + "";
    ReplaceAfterPlain(head + mid, "%U", "", "");
    assert head + mid + "" == "app  --flag ";
  }

  /** `%D` is not deleted but becomes `~`. */
  lemma FormatExecDirectoryCode()
    ensures FormatExec("cd %D") == "cd ~"
  {
    var s := "cd %D";
    AbsentCharNoMatch(s, "%f", 1);
    AbsentCharNoMatch(s, "%F", 1);
    ReplaceAbsent(s, "%f", "");
    ReplaceAbsent(s, "%F", "");
    assert s == "cd " + "%D" + "";
    ReplaceAfterPlain("cd ", "%D", "", "~");
    assert "cd " + "~" + "" == "cd ~";
    FormatExecKeepsPercentFree("cd ~");
    AbsentCharNoMatch("cd ~", "%u", 0);
    AbsentCharNoMatch("cd ~", "%U", 0);
    ReplaceAbsent("cd ~", "%u", "");
    ReplaceAbsent("cd ~", "%U", "");
  }

  /** The replacements run one after another, so deleting `%f` can bring a
      later code together: `%%fD` becomes `%D` and then `~`. */
  lemma FormatExecChained()
    ensures FormatExec("%%fD") == "~"
  {
    assert "%%fD" == "%" + "%f" + "D";
    MatchAtPair("%%fD", "%f", 0);
    ReplaceLeftmost("%", "%f", "D", "");
    AbsentCharNoMatch("D", "%f", 0);
    ReplaceAbsent("D", "%f", "");
    assert "%" + "" + "D" == "%D";
    AbsentCharNoMatch("%D", "%F", 1);
    ReplaceAbsent("%D", "%F", "");
    assert "%D" == "" + "%D" + "";
    ReplaceLeftmost("", "%D", "", "~");
    assert "" + "~" + "" == "~";
    AbsentCharNoMatch("~", "%u", 0);
    AbsentCharNoMatch("~", "%U", 0);
    ReplaceAbsent("~", "%u", "");
    ReplaceAbsent("~", "%U", "");
  }

  /** Each replacement is a single left-to-right pass, so deleting a code
      can leave another behind: `%%ff` becomes `%f`, which is kept. */
  lemma FormatExecSinglePass()
    ensures FormatExec("%%ff") == "%f"
    ensures HasFieldCode(FormatExec("%%ff"))
  {
    var exec := "%%ff";
    assert exec == "%" + "%f" + "f";
    MatchAtPair(exec, "%f", 0);
    ReplaceLeftmost("%", "%f", "f", "");
    AbsentCharNoMatch("f", "%f", 0);
    ReplaceAbsent("f", "%f", "");
    var s := "%" + "" + "f";
    assert s == "%f";
    AbsentCharNoMatch(s, "%F", 1);
    AbsentCharNoMatch(s, "%D", 1);
    AbsentCharNoMatch(s, "%u", 1);
    AbsentCharNoMatch(s, "%U", 1);
    ReplaceAbsent(s, "%F", "");
    ReplaceAbsent(s, "%D", "~");
    ReplaceAbsent(s, "%u", "");
    ReplaceAbsent(s, "%U", "");
    assert MatchAt(s, "%f", 0);
  }
}
