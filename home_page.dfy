/**
 * The install commands on the home page: each IDE's display name becomes the
 * argument of the download script through a fixed chain of string rewrites.
 */
module HomePage {
  import opened Wrappers
  import opened Text

  datatype Ide = Ide(name: string, file: string, icon: string)

  /** The IDEs the home page offers configuration for, in display order. */
  const Ides: seq<Ide> := [
    Ide("Cursor", ".cursorrules", "\U{26A1}"),
    Ide("Claude Code", "claude.md", "\U{1F916}"),
    Ide("Windsurf", ".windsurfrules", "\U{1F30A}"),
    Ide("GitHub Copilot", ".github/copilot-instructions.md", "\U{1F419}"),
    Ide("Aider", ".aider.conf.yml", "\U{1F3A8}"),
    Ide("Continue", ".continuerc.json", "\U{23ED}\U{FE0F}")
  ]

  const CommandPrefix: string := "curl -sSL https://agenticdriven.dev/download.sh | bash -s "

  /** A character the script argument may hold: neither whitespace nor an upper-case ASCII letter. */
  predicate IsSlugChar(c: char) {
    !IsSpace(c) && !IsAsciiUpper(c)
  }

  predicate IsSlugText(s: string) {
    forall i :: 0 <= i < |s| ==> IsSlugChar(s[i])
  }

  /** Collapsing the whitespace of lower-cased text leaves only slug characters. */
  lemma CollapsedLowerIsSlug(s: string)
    requires forall i :: 0 <= i < |s| ==> !IsAsciiUpper(s[i])
    ensures IsSlugText(CollapseSpaces(s))
  {
    var r := CollapseSpaces(s);
    CollapseSpec(s, false);
    forall i | 0 <= i < |r| ensures IsSlugChar(r[i]) {
      assert r[i] in r;
      if r[i] != '-' {
        assert r[i] in s;
        var j :| 0 <= j < |s| && s[j] == r[i];
      }
    }
  }

  /** Replacing one occurrence by slug text keeps slug text. */
  lemma ReplaceFirstKeepsSlug(s: string, pat: string, rep: string)
    requires IsSlugText(s) && IsSlugText(rep)
    ensures IsSlugText(ReplaceFirst(s, pat, rep))
  {
    var r := ReplaceFirst(s, pat, rep);
    match IndexOf(s, pat)
    case None =>
    case Some(k) =>
      assert r == s[..k] + rep + s[k + |pat|..];
      forall i | 0 <= i < |r| ensures IsSlugChar(r[i]) {
        if i < k {
          assert r[i] == s[i];
        } else if i < k + |rep| {
          assert r[i] == rep[i - k];
        } else {
          assert r[i] == s[i - |rep| + |pat|];
        }
      }
  }

  /**
   * The script argument for an IDE: lower-case the name, turn each whitespace
   * run into `-`, drop the first `github-`, then shorten the first
   * `claude-code` to `claude`. Whatever the name, the argument has no
   * whitespace and no upper-case ASCII letter.
   */
  function IdeParam(name: string): (r: string)
    ensures IsSlugText(r)
  {
    var dashed := CollapseSpaces(ToLower(name));
    CollapsedLowerIsSlug(ToLower(name));
    ReplaceFirstKeepsSlug(dashed, "github-", "");
    var noGithub := ReplaceFirst(dashed, "github-", "");
    ReplaceFirstKeepsSlug(noGithub, "claude-code", "claude");
    ReplaceFirst(noGithub, "claude-code", "claude")
  }

  /** The command shown and copied for an IDE: the fixed script invocation followed immediately by its argument. */
  function InstallCommand(name: string): (r: string)
    ensures |r| == |CommandPrefix| + |IdeParam(name)|
    ensures r[..|CommandPrefix|] == CommandPrefix && r[|CommandPrefix|..] == IdeParam(name)
  {
    CommandPrefix + IdeParam(name)
  }

  /** Two names give the same command exactly when they give the same script argument. */
  lemma InstallCommandInjective(a: string, b: string)
    ensures InstallCommand(a) == InstallCommand(b) <==> IdeParam(a) == IdeParam(b)
  {
    if InstallCommand(a) == InstallCommand(b) {
      assert InstallCommand(a)[|CommandPrefix|..] == InstallCommand(b)[|CommandPrefix|..];
    }
  }

  lemma ShortTextHasNoMatch(s: string, pat: string)
    requires |s| < |pat|
    ensures IndexOf(s, pat) == None
  {
  }

  /** The four rewrite stages, each established on its own, compose into the argument. */
  lemma Stages(name: string, lower: string, dashed: string, noGithub: string, slug: string)
    requires ToLower(name) == lower
    requires CollapseSpaces(lower) == dashed
    requires ReplaceFirst(dashed, "github-", "") == noGithub
    requires ReplaceFirst(noGithub, "claude-code", "claude") == slug
    ensures IdeParam(name) == slug
  {
  }

  /**
   * A one-word name whose lower-case form is shorter than `claude-code` and
   * has no `g` is only lower-cased: neither literal rewrite can match it.
   */
  lemma SingleWord(name: string, lower: string)
    requires ToLower(name) == lower
    requires NoSpace(lower) && |lower| < |"claude-code"|
    requires forall i :: 0 <= i < |lower| ==> lower[i] != 'g'
    ensures IdeParam(name) == lower
  {
    CollapseNoSpace(lower, false);
    if |lower| >= |"github-"| {
      AbsentFirstChar(lower, "github-");
    } else {
      ShortTextHasNoMatch(lower, "github-");
    }
    ShortTextHasNoMatch(lower, "claude-code");
    Stages(name, lower, lower, lower, lower);
  }

  lemma ClaudeCodeParam()
    ensures IdeParam("Claude Code") == "claude"
  {
    assert ToLower("Claude Code") == "claude" + " " + "code";
    CollapseWords("claude", "code");
    assert "claude" + "-" + "code" == "claude-code";
    AbsentFirstChar("claude-code", "github-");
    IndexOfAtStart("claude-code", "");
    assert "claude-code" + "" == "claude-code";
    Stages("Claude Code", ToLower("Claude Code"), "claude-code", "claude-code", "claude");
  }

  /**
   * A name that lower-cases to `github`, one space and one short word keeps
   * only that word: the space becomes `-`, and the `github-` it completes is
   * dropped.
   */
  lemma GithubPrefixed(name: string, word: string)
    requires ToLower(name) == "github" + " " + word
    requires NoSpace(word) && |word| < |"claude-code"|
    ensures IdeParam(name) == word
  {
    CollapseWords("github", word);
    assert "github" + "-" + word == "github-" + word;
    IndexOfAtStart("github-", word);
    var r := ReplaceFirst("github-" + word, "github-", "");
    assert r == word by {
      assert r[0..] == r;
      assert ("github-" + word)[|"github-"|..] == word;
    }
    ShortTextHasNoMatch(word, "claude-code");
    Stages(name, ToLower(name), "github-" + word, word, word);
  }

  lemma GitHubCopilotParam()
    ensures IdeParam("GitHub Copilot") == "copilot"
  {
    assert ToLower("GitHub Copilot") == "github" + " " + "copilot";
    GithubPrefixed("GitHub Copilot", "copilot");
  }

  lemma CursorParam()
    ensures IdeParam("Cursor") == "cursor"
  {
    SingleWord("Cursor", "cursor");
  }

  lemma WindsurfParam()
    ensures IdeParam("Windsurf") == "windsurf"
  {
    SingleWord("Windsurf", "windsurf");
  }

  lemma AiderParam()
    ensures IdeParam("Aider") == "aider"
  {
    SingleWord("Aider", "aider");
  }

  lemma ContinueParam()
    ensures IdeParam("Continue") == "continue"
  {
    SingleWord("Continue", "continue");
  }

  lemma TableNames()
    ensures Ides[0].name == "Cursor" && Ides[1].name == "Claude Code" && Ides[2].name == "Windsurf"
    ensures Ides[3].name == "GitHub Copilot" && Ides[4].name == "Aider" && Ides[5].name == "Continue"
  {
  }

  /** The script arguments of the table, in display order. */
  const TableParams: seq<string> := ["cursor", "claude", "windsurf", "copilot", "aider", "continue"]

  lemma TableParamsDistinct()
    ensures |TableParams| == 6
    ensures forall i, j :: 0 <= i < j < |TableParams| ==> TableParams[i] != TableParams[j]
  {
  }

  /** The shipped table gives cursor, claude, windsurf, copilot, aider and continue. */
  lemma IdeParamsOfTable()
    ensures |Ides| == |TableParams|
    ensures forall k :: 0 <= k < |Ides| ==> IdeParam(Ides[k].name) == TableParams[k]
  {
    TableNames();
    CursorParam();
    ClaudeCodeParam();
    WindsurfParam();
    GitHubCopilotParam();
    AiderParam();
    ContinueParam();
    forall k | 0 <= k < |Ides| ensures IdeParam(Ides[k].name) == TableParams[k] {
      if k == 0 {
      } else if k == 1 {
      } else if k == 2 {
      } else if k == 3 {
      } else if k == 4 {
      } else {
      }
    }
  }

  /**
   * Each row of the table is keyed by its name, and each row's command must
   * fetch a different configuration: names and script arguments are both
   * distinct across the table.
   */
  lemma IdesDistinct()
    ensures |Ides| == 6
    ensures forall i, j :: 0 <= i < j < |Ides| ==> Ides[i].name != Ides[j].name
    ensures forall i, j :: 0 <= i < j < |Ides| ==> IdeParam(Ides[i].name) != IdeParam(Ides[j].name)
  {
    TableNames();
    TableParamsDistinct();
    IdeParamsOfTable();
  }

  /**
   * The whitespace rewrite is global, the two literal rewrites are not: every
   * whitespace run becomes one `-`, but only the first `github-` is dropped.
   */
  lemma RewriteScope()
    ensures IdeParam("A B  C") == "a-b-c"
    ensures IdeParam("GitHub GitHub") == "github"
  {
    WhitespaceRuns();
    assert ToLower("GitHub GitHub") == "github" + " " + "github";
    GithubPrefixed("GitHub GitHub", "github");
  }

  lemma WhitespaceRunsDashed()
    ensures CollapseSpaces(ToLower("A B  C")) == "a-b-c"
  {
    assert ToLower("A B  C") == "a" + " " + "b  c";
    DoubleSpaceDashed();
    CollapseSpacesRun("a", " ", "b  c");
    assert "a" + "-" + "b-c" == "a-b-c";
  }

  lemma DoubleSpaceDashed()
    ensures CollapseSpaces("b  c") == "b-c"
  {
    assert "b  c" == "b" + "  " + "c";
    CollapseSpacesRun("b", "  ", "c");
    CollapseNoSpace("c", false);
  }

  lemma WhitespaceRuns()
    ensures IdeParam("A B  C") == "a-b-c"
  {
    WhitespaceRunsDashed();
    ShortTextHasNoMatch("a-b-c", "github-");
    ShortTextHasNoMatch("a-b-c", "claude-code");
    Stages("A B  C", ToLower("A B  C"), "a-b-c", "a-b-c", "a-b-c");
  }

  /**
   * Lower-casing comes first because the literal patterns are lower-case:
   * without it, `GitHub-Copilot` would keep its prefix.
   */
  lemma LowercaseFirstMatters()
    ensures ReplaceFirst(CollapseSpaces("GitHub Copilot"), "github-", "") == "GitHub-Copilot"
    ensures IdeParam("GitHub Copilot") == "copilot"
  {
    MixedCaseKeepsPrefix();
    GitHubCopilotParam();
  }

  lemma MixedCaseKeepsPrefix()
    ensures ReplaceFirst(CollapseSpaces("GitHub Copilot"), "github-", "") == "GitHub-Copilot"
  {
    MixedCaseDashed();
    MixedCaseNoMatch();
  }

  lemma MixedCaseNoMatch()
    ensures ReplaceFirst("GitHub-Copilot", "github-", "") == "GitHub-Copilot"
  {
    AbsentFirstChar("GitHub-Copilot", "github-");
  }

  lemma MixedCaseDashed()
    ensures CollapseSpaces("GitHub Copilot") == "GitHub-Copilot"
  {
    assert "GitHub Copilot" == "GitHub" + " " + "Copilot";
    CollapseWords("GitHub", "Copilot");
    assert "GitHub" + "-" + "Copilot" == "GitHub-Copilot";
  }
}
