/**
 * The text transforms of the tutorial-chapter refresher: dropping every
 * GraphicsAPI include except Vulkan's from a chapter's main.cpp, choosing
 * the CMakeLists.txt template by whether the original compiled shaders,
 * migrating the shared Gradle uninstall block once, and pairing chapter
 * directories with their zip archives. Files are given as their contents;
 * paths are strings whose components are separated by `/`.
 */
module Chapters {
  import opened Text

  const VulkanInclude: string := "GraphicsAPI_Vulkan.h"
  const ApiPrefix: string := "GraphicsAPI_"
  const IncludeDirective: string := "#include"

  // ----- clean_main_includes -----

  /**
   * `#include\s*<\s*(GraphicsAPI_[^>]+)>` matched at the start of a stripped
   * line: the captured header name, if the line matches. The prefix holds no
   * `>`, so the `>` closing the name is the first one after the `<`.
   */
  function IncludeName(s: string): Option<string>
  {
    if !StartsWith(s, IncludeDirective) then None
    else
      var lt := SkipSpace(s, |IncludeDirective|);
      if lt == |s| || s[lt] != '<' then None
      else
        var k := SkipSpace(s, lt + 1);
        if !StartsWith(s[k..], ApiPrefix) then None
        else
          var gt := IndexFrom(s, '>', k);
          if gt <= k + |ApiPrefix| || gt == |s| then None else Some(s[k..gt])
  }

  predicate AllSpace(w: string)
  {
    forall i :: 0 <= i < |w| ==> IsSpace(w[i])
  }

  /** A header name the capture group accepts: the prefix, then at least one character, none of them `>`. */
  predicate ApiHeader(name: string)
  {
    |name| > |ApiPrefix| && StartsWith(name, ApiPrefix) && '>' !in name
  }

  /** `s` is `#include`, optional whitespace, `<`, optional whitespace, the name, `>`, and anything after. */
  predicate IncludeSplit(s: string, ws1: string, ws2: string, name: string, rest: string)
  {
    AllSpace(ws1) && AllSpace(ws2) && ApiHeader(name)
    && s == IncludeDirective + ws1 + "<" + ws2 + name + ">" + rest
  }

  /** Every line the pattern accepts yields the name between the brackets. */
  lemma IncludeNameComplete(s: string, ws1: string, ws2: string, name: string, rest: string)
    requires IncludeSplit(s, ws1, ws2, name, rest)
    ensures IncludeName(s) == Some(name)
  {
    var lt := |IncludeDirective| + |ws1|;
    var k := lt + 1 + |ws2|;
    var gt := k + |name|;
    IncludeSplitAt(s, ws1, ws2, name, rest);
    SkipSpaceIs(s, |IncludeDirective|, lt);
    SkipSpaceIs(s, lt + 1, k);
    assert IndexFrom(s, '>', k) == gt by {
      IndexFromIs(s, '>', k, gt);
    }
  }

  /** Every name the function yields comes from a line of the accepted shape. */
  lemma IncludeNameSound(s: string)
    requires IncludeName(s).Some?
    ensures exists ws1, ws2, rest :: IncludeSplit(s, ws1, ws2, IncludeName(s).value, rest)
  {
    var d := |IncludeDirective|;
    var lt := SkipSpace(s, d);
    var k := SkipSpace(s, lt + 1);
    var gt := IndexFrom(s, '>', k);
    var name := IncludeName(s).value;
    assert name == s[k..gt];
    SplitFromCuts(s, lt, k, gt);
    assert IncludeSplit(s, s[d..lt], s[lt + 1..k], name, s[gt + 1..]);
  }

  /** The pieces between the cut points that the pattern finds form an accepted line. */
  lemma SplitFromCuts(s: string, lt: nat, k: nat, gt: nat)
    requires StartsWith(s, IncludeDirective) && |IncludeDirective| <= lt < k && k + |ApiPrefix| < gt < |s|
    requires (forall i :: |IncludeDirective| <= i < lt ==> IsSpace(s[i])) && s[lt] == '<'
    requires (forall i :: lt + 1 <= i < k ==> IsSpace(s[i]))
    requires StartsWith(s[k..], ApiPrefix) && (forall i :: k <= i < gt ==> s[i] != '>') && s[gt] == '>'
    ensures IncludeSplit(s, s[|IncludeDirective|..lt], s[lt + 1..k], s[k..gt], s[gt + 1..])
  {
    var d := |IncludeDirective|;
    var ws1, ws2, name, rest := s[d..lt], s[lt + 1..k], s[k..gt], s[gt + 1..];
    assert AllSpace(ws1) && AllSpace(ws2) by {
      forall i | 0 <= i < |ws1| ensures IsSpace(ws1[i]) {
        assert ws1[i] == s[d + i];
      }
      forall i | 0 <= i < |ws2| ensures IsSpace(ws2[i]) {
        assert ws2[i] == s[lt + 1 + i];
      }
    }
    assert ApiHeader(name) by {
      assert name[..|ApiPrefix|] == s[k..][..|ApiPrefix|];
      forall i | 0 <= i < |name| ensures name[i] != '>' {
        assert name[i] == s[k + i];
      }
    }
    assert s == IncludeDirective + ws1 + "<" + ws2 + name + ">" + rest by {
      SplitAt(s, d, lt, k, gt);
      assert s[..d] == IncludeDirective;
      assert s[lt..lt + 1] == "<" && s[gt..gt + 1] == ">";
    }
  }

  /** A string is the concatenation of its pieces between the given cut points. */
  lemma SplitAt(s: string, a: nat, b: nat, c: nat, d: nat)
    requires a <= b < c <= d < |s|
    ensures s == s[..a] + s[a..b] + s[b..b + 1] + s[b + 1..c] + s[c..d] + s[d..d + 1] + s[d + 1..]
  {
  }

  lemma IncludeSplitAt(s: string, ws1: string, ws2: string, name: string, rest: string)
    requires IncludeSplit(s, ws1, ws2, name, rest)
    ensures var lt := |IncludeDirective| + |ws1|; var k := lt + 1 + |ws2|; var gt := k + |name|;
      gt < |s| && StartsWith(s, IncludeDirective)
      && (forall i :: |IncludeDirective| <= i < lt ==> IsSpace(s[i])) && s[lt] == '<'
      && (forall i :: lt + 1 <= i < k ==> IsSpace(s[i])) && !IsSpace(s[k])
      && s[k..gt] == name && StartsWith(s[k..], ApiPrefix)
      && (forall i :: k <= i < gt ==> s[i] != '>') && s[gt] == '>'
  {
    var lt := |IncludeDirective| + |ws1|;
    var k := lt + 1 + |ws2|;
    var gt := k + |name|;
    assert s[..|IncludeDirective|] == IncludeDirective;
    forall i | |IncludeDirective| <= i < lt ensures IsSpace(s[i]) {
      assert s[i] == ws1[i - |IncludeDirective|];
    }
    forall i | lt + 1 <= i < k ensures IsSpace(s[i]) {
      assert s[i] == ws2[i - lt - 1];
    }
    assert s[k..gt] == name;
    forall i | k <= i < gt ensures s[i] != '>' {
      assert s[i] == name[i - k];
    }
    assert s[k] == name[0] == ApiPrefix[0];
    assert s[k..][..|ApiPrefix|] == name[..|ApiPrefix|];
    assert s[gt] == '>';
  }

  lemma SkipSpaceIs(s: string, from: nat, j: nat)
    requires from <= j < |s| && !IsSpace(s[j]) && forall i :: from <= i < j ==> IsSpace(s[i])
    ensures SkipSpace(s, from) == j
  {
  }

  lemma IndexFromIs(s: string, c: char, from: nat, j: nat)
    requires from <= j < |s| && s[j] == c && forall i :: from <= i < j ==> s[i] != c
    ensures IndexFrom(s, c, from) == j
  {
  }

  /** A line is dropped when, stripped, it includes a GraphicsAPI header other than Vulkan's. */
  predicate Dropped(line: string)
  {
    var name := IncludeName(Strip(line));
    name.Some? && name.value != VulkanInclude
  }

  /** The lines the filter keeps, in their original order. */
  function KeptLines(lines: seq<string>): seq<string>
  {
    if lines == [] then []
    else KeptLines(lines[..|lines| - 1]) + (if Dropped(lines[|lines| - 1]) then [] else [lines[|lines| - 1]])
  }

  /** `"\n".join(lines)` */
  function JoinLines(lines: seq<string>): string
  {
    if lines == [] then []
    else if |lines| == 1 then lines[0]
    else JoinLines(lines[..|lines| - 1]) + "\n" + lines[|lines| - 1]
  }

  /**
   * The filter loop of `clean_main_includes`, given the file's lines: the
   * lines it keeps, and the text written back, only when something was
   * dropped.
   */
  method CleanMainIncludes(lines: seq<string>) returns (newLines: seq<string>, written: Option<string>)
    ensures newLines == KeptLines(lines)
    ensures written == if newLines != lines then Some(JoinLines(newLines) + "\n") else None
  {
    newLines := [];
    for i := 0 to |lines|
      invariant newLines == KeptLines(lines[..i])
    {
      assert lines[..i + 1][..i] == lines[..i];
      var line := lines[i];
      var name := IncludeName(Strip(line));
      if name.Some? && name.value != VulkanInclude {
        continue;
      }
      newLines := newLines + [line];
    }
    assert lines[..|lines|] == lines;
    if newLines != lines {
      written := Some(JoinLines(newLines) + "\n");
    } else {
      written := None;
    }
  }

  /** The filter works line by line: filtering two parts and joining is filtering the whole. */
  lemma {:induction false} KeptLinesAppend(a: seq<string>, b: seq<string>)
    ensures KeptLines(a + b) == KeptLines(a) + KeptLines(b)
    decreases |b|
  {
    if b == [] {
      assert a + b == a;
    } else {
      var b' := b[..|b| - 1];
      assert (a + b)[..|a + b| - 1] == a + b';
      KeptLinesAppend(a, b');
    }
  }

  /** A line survives exactly when it is in the input and not dropped. */
  lemma {:induction false} KeptLinesMembers(lines: seq<string>)
    ensures forall l :: l in KeptLines(lines) <==> l in lines && !Dropped(l)
  {
    if lines != [] {
      var init := lines[..|lines| - 1];
      KeptLinesMembers(init);
      assert lines == init + [lines[|lines| - 1]];
    }
  }

  /** Nothing changes exactly when no line is dropped. */
  lemma {:induction false} KeptLinesUnchanged(lines: seq<string>)
    ensures KeptLines(lines) == lines <==> forall i :: 0 <= i < |lines| ==> !Dropped(lines[i])
  {
    KeptLinesShorter(lines);
    if lines != [] {
      var init := lines[..|lines| - 1];
      KeptLinesUnchanged(init);
      KeptLinesShorter(init);
      if KeptLines(lines) == lines {
        assert KeptLines(init) == init by {
          assert KeptLines(lines)[..|lines| - 1] == KeptLines(init);
        }
      }
    }
  }

  lemma {:induction false} KeptLinesShorter(lines: seq<string>)
    ensures |KeptLines(lines)| <= |lines|
  {
    if lines != [] {
      KeptLinesShorter(lines[..|lines| - 1]);
    }
  }

  /** Filtering twice gives the same lines as filtering once. */
  lemma KeptLinesIdempotent(lines: seq<string>)
    ensures KeptLines(KeptLines(lines)) == KeptLines(lines)
  {
    var kept := KeptLines(lines);
    KeptLinesMembers(lines);
    KeptLinesUnchanged(kept);
    assert forall i :: 0 <= i < |kept| ==> !Dropped(kept[i]) by {
      forall i | 0 <= i < |kept| ensures !Dropped(kept[i]) {
        assert kept[i] in kept;
      }
    }
  }

  // ----- has_shader_compilation -----

  const ShaderPatterns: seq<string> := ["GLSL_SHADERS", "glsl_spv_shader", "../Shaders/", "SHADER_DEST"]

  /** `any(pattern in content for pattern in patterns)` */
  function AnyIn(content: string, patterns: seq<string>): bool
  {
    if patterns == [] then false else Contains(content, patterns[0]) || AnyIn(content, patterns[1..])
  }

  function HasShaderCompilation(content: string): bool
  {
    AnyIn(content, ShaderPatterns)
  }

  lemma {:induction false} AnyInIff(content: string, patterns: seq<string>)
    ensures AnyIn(content, patterns) <==> exists i :: 0 <= i < |patterns| && Contains(content, patterns[i])
  {
    if patterns != [] {
      AnyInIff(content, patterns[1..]);
      if exists i :: 0 <= i < |patterns| && Contains(content, patterns[i]) {
        var i :| 0 <= i < |patterns| && Contains(content, patterns[i]);
        if i > 0 {
          assert patterns[1..][i - 1] == patterns[i];
        }
      }
    }
  }

  /** The check holds exactly when one of the shader patterns occurs somewhere in the content. */
  lemma HasShaderCompilationIff(content: string)
    ensures HasShaderCompilation(content) <==>
      exists i, j :: 0 <= i < |ShaderPatterns| && OccursAt(content, ShaderPatterns[i], j)
  {
    AnyInIff(content, ShaderPatterns);
    forall i | 0 <= i < |ShaderPatterns| {
      ContainsIff(content, ShaderPatterns[i]);
    }
  }

  // ----- update_cmake -----

  const CommonCmakeInclude: string := "include(\"../Common/CMakeLists.txt\")"
  const ShadersCmakeInclude: string := "include(\"../Shaders/CMakeLists.txt\")"

  /** The lines of the chapter stub up to and including the Common include. */
  const StubLines: seq<string> := [
    "cmake_minimum_required(VERSION 3.22.1)",
    "project(\"${PROJECT_NAME}\")",
    "",
    "# Main application files",
    "set(APP_HEADERS",
    "    # Main headers will be added here",
    ")",
    "",
    "set(APP_SOURCE",
    "    main.cpp",
    ")",
    CommonCmakeInclude
  ]

  /** The lines of the new CMakeLists.txt: the stub, then the Shaders include when the original compiled shaders. */
  function CmakeLines(original: string): seq<string>
  {
    StubLines + (if HasShaderCompilation(original) then [ShadersCmakeInclude] else [])
  }

  /** The text written: every line ends with a newline. */
  function UpdateCmake(original: string): string
  {
    JoinLines(CmakeLines(original)) + "\n"
  }

  /** The new file includes the Shaders CMake file exactly when the original compiled shaders, and always the Common one. */
  lemma UpdateCmakeShaders(original: string)
    ensures ShadersCmakeInclude in CmakeLines(original) <==> HasShaderCompilation(original)
    ensures CommonCmakeInclude in CmakeLines(original)
    ensures CmakeLines(original)[..|StubLines|] == StubLines
  {
    assert ShadersCmakeInclude !in StubLines;
    assert CmakeLines(original)[|StubLines| - 1] == CommonCmakeInclude;
  }

  // ----- update_common_uninstall_block -----

  const ExecOperationsMarker: string := "project.services.get(org.gradle.process.ExecOperations)"

  const OldUninstallSnippet: string :=
    "// Restart vrshell after uninstall to clear stale icon\n"
    + "tasks.matching { it.name.startsWith(\"uninstall\") }.configureEach {\n"
    + "    doLast {\n"
    + "        exec { commandLine 'adb', 'shell', 'am', 'force-stop', 'com.oculus.vrshell' }\n"
    + "        exec { commandLine 'adb', 'shell', 'monkey', '-p', 'com.oculus.vrshell', '1' }\n"
    + "    }\n"
    + "}\n"

  const NewUninstallHead: string :=
    "// Restart vrshell after uninstall to clear stale icon\n"
    + "def execOps = "

  const NewUninstallTail: string :=
    "\n"
    + "\n"
    + "tasks.matching { it.name.startsWith(\"uninstall\") }.configureEach {\n"
    + "    doLast {\n"
    + "        execOps.exec { spec ->\n"
    + "            spec.commandLine 'adb', 'shell', 'am', 'force-stop', 'com.oculus.vrshell'\n"
    + "        }\n"
    + "        execOps.exec { spec ->\n"
    + "            spec.commandLine 'adb', 'shell', 'monkey', '-p', 'com.oculus.vrshell', '1'\n"
    + "        }\n"
    + "    }\n"
    + "}\n"

  const NewUninstallSnippet: string := NewUninstallHead + ExecOperationsMarker + NewUninstallTail

  /** `s.replace(pat, repl)`: every occurrence, left to right, without overlaps. */
  function ReplaceAll(s: string, pat: string, repl: string): string
    requires |pat| > 0
    decreases |s|
  {
    if |s| < |pat| then s
    else if s[..|pat|] == pat then repl + ReplaceAll(s[|pat|..], pat, repl)
    else [s[0]] + ReplaceAll(s[1..], pat, repl)
  }

  /** Where there is an occurrence to replace, the replacement shows up in the result. */
  lemma {:induction false} ReplaceAllInserts(s: string, pat: string, repl: string)
    requires |pat| > 0 && Contains(s, pat)
    ensures Contains(ReplaceAll(s, pat, repl), repl)
    decreases |s|
  {
    if s[..|pat|] == pat {
      assert OccursAt(repl + ReplaceAll(s[|pat|..], pat, repl), repl, 0);
      ContainsIff(repl + ReplaceAll(s[|pat|..], pat, repl), repl);
    } else {
      assert Contains(s[1..], pat) by {
        ContainsIff(s, pat);
        var i :| OccursAt(s, pat, i);
        assert i != 0;
        assert s[1..][i - 1..i - 1 + |pat|] == s[i..i + |pat|];
        assert OccursAt(s[1..], pat, i - 1);
        ContainsIff(s[1..], pat);
      }
      ReplaceAllInserts(s[1..], pat, repl);
      ContainsInContext([s[0]], ReplaceAll(s[1..], pat, repl), [], repl);
      assert [s[0]] + ReplaceAll(s[1..], pat, repl) + [] == ReplaceAll(s, pat, repl);
    }
  }

  /** What the shared Gradle file migration does. */
  datatype GradleEdit = AlreadyMigrated | BlockNotFound | Rewritten(content: string)

  function UpdateCommonUninstallBlock(content: string): GradleEdit
  {
    if Contains(content, ExecOperationsMarker) then AlreadyMigrated
    else if !Contains(content, OldUninstallSnippet) then BlockNotFound
    else Rewritten(ReplaceAll(content, OldUninstallSnippet, NewUninstallSnippet))
  }

  /** The new snippet carries the marker that the guard looks for. */
  lemma NewSnippetHasMarker()
    ensures Contains(NewUninstallSnippet, ExecOperationsMarker)
  {
    var m := ExecOperationsMarker;
    assert OccursAt(m, m, 0) by {
      assert m[0..|m|] == m;
    }
    ContainsIff(m, m);
    ContainsInContext(NewUninstallHead, m, NewUninstallTail, m);
  }

  /**
   * The file is left alone when the marker is already there or the old
   * block is missing; once rewritten, a second run finds the marker and
   * changes nothing.
   */
  lemma UninstallBlockIdempotent(content: string)
    ensures Contains(content, ExecOperationsMarker) ==> UpdateCommonUninstallBlock(content) == AlreadyMigrated
    ensures !Contains(content, ExecOperationsMarker) && !Contains(content, OldUninstallSnippet) ==>
      UpdateCommonUninstallBlock(content) == BlockNotFound
    ensures UpdateCommonUninstallBlock(content).Rewritten? ==>
      Contains(content, OldUninstallSnippet)
      && UpdateCommonUninstallBlock(UpdateCommonUninstallBlock(content).content) == AlreadyMigrated
  {
    if UpdateCommonUninstallBlock(content).Rewritten? {
      var result := ReplaceAll(content, OldUninstallSnippet, NewUninstallSnippet);
      ReplaceAllInserts(content, OldUninstallSnippet, NewUninstallSnippet);
      NewSnippetHasMarker();
      ContainsTransitive(result, NewUninstallSnippet, ExecOperationsMarker);
    }
  }

  // ----- resolve_targets -----

  /** The last component of a path. */
  function PathName(p: string): string
  {
    var i := LastIndexOf(p, '/');
    if i < 0 then p else p[i + 1..]
  }

  /** The index of the last `c` in `s`, or -1. */
  function LastIndexOf(s: string, c: char): (i: int)
    ensures -1 <= i < |s| && (i >= 0 ==> s[i] == c)
  {
    if s == [] then -1
    else if s[|s| - 1] == c then |s| - 1
    else LastIndexOf(s[..|s| - 1], c)
  }

  /** `PurePath.stem`: the name without its last suffix, where a leading dot or a final dot is no suffix. */
  function Stem(p: string): string
  {
    var name := PathName(p);
    var i := LastIndexOf(name, '.');
    if 0 < i < |name| - 1 then name[..i] else name
  }

  /** `root / name` */
  function JoinPath(root: string, name: string): string
  {
    root + "/" + name
  }

  /** The glob pattern `Chapter*.zip` on a directory entry name. */
  predicate IsChapterZip(name: string)
  {
    |name| >= 11 && name[..7] == "Chapter" && name[|name| - 4..] == ".zip"
  }

  /** Python's `<=` on strings: code point by code point, a prefix first. */
  predicate StrLe(a: string, b: string)
    decreases |a|
  {
    a == [] || (b != [] && (a[0] < b[0] || (a[0] == b[0] && StrLe(a[1..], b[1..]))))
  }

  lemma {:induction false} StrLeTotal(a: string, b: string)
    ensures StrLe(a, b) || StrLe(b, a)
    decreases |a|
  {
    if a != [] && b != [] && a[0] == b[0] {
      StrLeTotal(a[1..], b[1..]);
    }
  }

  lemma {:induction false} StrLeTrans(a: string, b: string, c: string)
    requires StrLe(a, b) && StrLe(b, c)
    ensures StrLe(a, c)
    decreases |a|
  {
    if a != [] && a[0] == b[0] && b[0] == c[0] {
      StrLeTrans(a[1..], b[1..], c[1..]);
    }
  }

  predicate SortedNames(s: seq<string>)
  {
    forall i, j :: 0 <= i < j < |s| ==> StrLe(s[i], s[j])
  }

  /** Inserts `x` into a sorted list after every name not above it. */
  function Insert(x: string, s: seq<string>): seq<string>
  {
    if s == [] then [x]
    else if StrLe(s[0], x) then [s[0]] + Insert(x, s[1..])
    else [x] + s
  }

  lemma {:induction false} InsertSorted(x: string, s: seq<string>)
    requires SortedNames(s)
    ensures SortedNames(Insert(x, s)) && multiset(Insert(x, s)) == multiset(s) + multiset{x}
    decreases |s|, 1
  {
    if s != [] {
      if StrLe(s[0], x) {
        InsertSortedBehind(x, s);
      } else {
        InsertInFront(x, s);
      }
    }
  }

  /** Inserting behind the first name: the first name stays in front of the sorted rest. */
  lemma {:induction false} InsertSortedBehind(x: string, s: seq<string>)
    requires s != [] && StrLe(s[0], x) && SortedNames(s)
    ensures SortedNames(Insert(x, s)) && multiset(Insert(x, s)) == multiset(s) + multiset{x}
    decreases |s|, 0
  {
    var t := Insert(x, s[1..]);
    HeadBelowRest(s);
    InsertSorted(x, s[1..]);
    InsertBehind(s[0], x, s[1..], t);
    ConsMultiset(s, t, x);
    assert Insert(x, s) == [s[0]] + t;
  }

  lemma ConsMultiset(s: seq<string>, t: seq<string>, x: string)
    requires s != [] && multiset(t) == multiset(s[1..]) + multiset{x}
    ensures multiset([s[0]] + t) == multiset(s) + multiset{x}
  {
    assert s == [s[0]] + s[1..];
  }

  /** The rest of a sorted list is sorted, and its first name is not above any of the others. */
  lemma HeadBelowRest(s: seq<string>)
    requires s != [] && SortedNames(s)
    ensures SortedNames(s[1..])
    ensures forall y :: y in multiset(s[1..]) ==> StrLe(s[0], y)
  {
    forall i, j | 0 <= i < j < |s[1..]| ensures StrLe(s[1..][i], s[1..][j]) {
      assert s[1..][i] == s[i + 1] && s[1..][j] == s[j + 1];
    }
    forall y | y in multiset(s[1..]) ensures StrLe(s[0], y) {
      var k :| 0 <= k < |s[1..]| && s[1..][k] == y;
      assert s[k + 1] == y;
    }
  }

  /** A name not above `x` nor any name of `rest` stays first once `x` joins `rest`. */
  lemma InsertBehind(h: string, x: string, rest: seq<string>, t: seq<string>)
    requires StrLe(h, x) && forall y :: y in multiset(rest) ==> StrLe(h, y)
    requires SortedNames(t) && multiset(t) == multiset(rest) + multiset{x}
    ensures SortedNames([h] + t)
  {
    forall y | y in multiset(t) ensures StrLe(h, y) {
      if y != x {
        assert y in multiset(rest);
      }
    }
    SortedCons(h, t);
  }

  /** A name below the first of a sorted list goes in front of it. */
  lemma InsertInFront(x: string, s: seq<string>)
    requires s != [] && SortedNames(s) && !StrLe(s[0], x)
    ensures SortedNames([x] + s)
  {
    StrLeTotal(s[0], x);
    forall y | y in multiset(s) ensures StrLe(x, y) {
      var k :| 0 <= k < |s| && s[k] == y;
      if k > 0 {
        StrLeTrans(x, s[0], s[k]);
      }
    }
    SortedCons(x, s);
  }

  /** A sorted list stays sorted with a name in front that is not above any of its names. */
  lemma SortedCons(h: string, t: seq<string>)
    requires SortedNames(t) && forall y :: y in multiset(t) ==> StrLe(h, y)
    ensures SortedNames([h] + t)
  {
    var r := [h] + t;
    forall i, j | 0 <= i < j < |r| ensures StrLe(r[i], r[j]) {
      if i == 0 {
        assert r[j] == t[j - 1] && t[j - 1] in multiset(t);
      } else {
        assert r[i] == t[i - 1] && r[j] == t[j - 1];
      }
    }
  }

  /** `sorted(names)` */
  function SortNames(s: seq<string>): seq<string>
  {
    if s == [] then [] else Insert(s[|s| - 1], SortNames(s[..|s| - 1]))
  }

  /** The result is in ascending order and holds the same names. */
  lemma {:induction false} SortNamesSpec(s: seq<string>)
    ensures SortedNames(SortNames(s)) && multiset(SortNames(s)) == multiset(s)
  {
    if s != [] {
      SortNamesSpec(s[..|s| - 1]);
      InsertSorted(s[|s| - 1], SortNames(s[..|s| - 1]));
      assert s == s[..|s| - 1] + [s[|s| - 1]];
    }
  }

  /** The `Chapter*.zip` names of a directory listing, in listing order. */
  function ChapterZips(entries: seq<string>): seq<string>
  {
    if entries == [] then []
    else
      var last := entries[|entries| - 1];
      ChapterZips(entries[..|entries| - 1]) + (if IsChapterZip(last) then [last] else [])
  }

  lemma {:induction false} ChapterZipsMembers(entries: seq<string>)
    ensures forall n :: n in ChapterZips(entries) <==> n in entries && IsChapterZip(n)
  {
    if entries != [] {
      ChapterZipsMembers(entries[..|entries| - 1]);
      assert entries == entries[..|entries| - 1] + [entries[|entries| - 1]];
    }
  }

  /**
   * `resolve_targets`: with chapter names, one (directory, zip) pair per
   * name in the given order; with none, one pair per `Chapter*.zip` entry of
   * `root` (the directory listing is given), in sorted order.
   */
  method ResolveTargets(root: string, chapters: seq<string>, entries: seq<string>)
    returns (targets: seq<(string, string)>)
    ensures chapters != [] ==>
      |targets| == |chapters|
      && forall i :: 0 <= i < |chapters| ==>
        targets[i] == (JoinPath(root, Stem(chapters[i])), JoinPath(root, Stem(chapters[i]) + ".zip"))
    ensures chapters == [] ==>
      var zips := SortNames(ChapterZips(entries));
      |targets| == |zips|
      && forall i :: 0 <= i < |zips| ==>
        targets[i] == (JoinPath(root, Stem(JoinPath(root, zips[i]))), JoinPath(root, zips[i]))
  {
    if chapters != [] {
      targets := NamedTargets(root, chapters);
    } else {
      targets := ZipTargets(root, SortNames(ChapterZips(entries)));
    }
  }

  /** The explicit-names loop: the stem of each name gives the directory and the zip beside it. */
  method NamedTargets(root: string, chapters: seq<string>) returns (targets: seq<(string, string)>)
    ensures |targets| == |chapters|
    ensures forall i :: 0 <= i < |chapters| ==>
      targets[i] == (JoinPath(root, Stem(chapters[i])), JoinPath(root, Stem(chapters[i]) + ".zip"))
  {
    targets := [];
    for i := 0 to |chapters|
      invariant |targets| == i
      invariant forall k :: 0 <= k < i ==>
        targets[k] == (JoinPath(root, Stem(chapters[k])), JoinPath(root, Stem(chapters[k]) + ".zip"))
    {
      var stem := Stem(chapters[i]);
      targets := targets + [(JoinPath(root, stem), JoinPath(root, stem + ".zip"))];
    }
  }

  /** The glob loop: each zip path paired with the directory named by its stem. */
  method ZipTargets(root: string, zips: seq<string>) returns (targets: seq<(string, string)>)
    ensures |targets| == |zips|
    ensures forall i :: 0 <= i < |zips| ==>
      targets[i] == (JoinPath(root, Stem(JoinPath(root, zips[i]))), JoinPath(root, zips[i]))
  {
    targets := [];
    for i := 0 to |zips|
      invariant |targets| == i
      invariant forall k :: 0 <= k < i ==>
        targets[k] == (JoinPath(root, Stem(JoinPath(root, zips[k]))), JoinPath(root, zips[k]))
    {
      var zipPath := JoinPath(root, zips[i]);
      targets := targets + [(JoinPath(root, Stem(zipPath)), zipPath)];
    }
  }

  /**
   * The stem of root/name for a `Chapter*.zip` entry (a directory entry
   * name has no `/`) is the name without `.zip`, so each pair is
   * (root/ChapterN, root/ChapterN.zip).
   */
  lemma ChapterZipStem(root: string, name: string)
    requires IsChapterZip(name) && '/' !in name
    ensures Stem(JoinPath(root, name)) == name[..|name| - 4]
    ensures Stem(JoinPath(root, name)) + ".zip" == name
  {
    var p := JoinPath(root, name);
    LastIndexOfIs(p, '/', |root|);
    assert p[|root| + 1..] == name;
    var n := |name|;
    assert name[n - 4..] == ".zip";
    assert name[n - 4] == '.' && name[n - 3] != '.' && name[n - 2] != '.' && name[n - 1] != '.';
    LastIndexOfIs(name, '.', n - 4);
    assert name[..n - 4] + ".zip" == name;
  }

  lemma LastIndexOfIs(s: string, c: char, j: nat)
    requires j < |s| && s[j] == c && forall k :: j < k < |s| ==> s[k] != c
    ensures LastIndexOf(s, c) == j
    decreases |s|
  {
    if s[|s| - 1] != c {
      LastIndexOfIs(s[..|s| - 1], c, j);
    }
  }

  /** The glob branch pairs every `Chapter*.zip` entry exactly once, in ascending order. */
  lemma ResolvedZips(entries: seq<string>)
    ensures SortedNames(SortNames(ChapterZips(entries)))
    ensures multiset(SortNames(ChapterZips(entries))) == multiset(ChapterZips(entries))
    ensures forall n :: n in SortNames(ChapterZips(entries)) <==> n in entries && IsChapterZip(n)
  {
    SortNamesSpec(ChapterZips(entries));
    ChapterZipsMembers(entries);
    forall n ensures n in SortNames(ChapterZips(entries)) <==> n in ChapterZips(entries) {
      assert n in SortNames(ChapterZips(entries)) <==> n in multiset(SortNames(ChapterZips(entries)));
    }
  }
}
