/**
 * The Markdown outline scanner: each line is stripped; a `#` header opens a
 * section under the nearest open section of lower level, and every
 * `[text](target)` link on any other line becomes an entry of the innermost
 * open section, classified as `near` or `follows` from the text before it.
 *
 * The scanner keeps a stack of (level, list) pairs whose lists are the
 * `contains` lists of the open sections. Those are always the root's last
 * entry, that entry's last entry, and so on, so the model keeps only the
 * levels and addresses the list at stack depth `d` as the `d`-th container
 * down the last-entry spine of the tree.
 */
module Scanner {
  import opened Text

  datatype Relation = Follows | Near

  /**
   * An entry of a `contains` list: a section (its "type" key is always
   * "section") or a link entry with the keys relation, target, text and context.
   */
  datatype Node =
    | Section(name: string, contains: seq<Node>, follows: seq<Node>)
    | Link(relation: Relation, target: string, text: string, context: string)

  datatype Root = Root(node: string, path: string, contains: seq<Node>, follows: seq<Node>, near: seq<Node>)

  datatype ScanResult = FileNotFound | Scanned(root: Root)

  // ----- headers: ^(#+)\s+(.*) -----

  datatype Header = Header(level: nat, title: string)

  /** The number of `#` characters at the start of `s`. */
  function HashRun(s: string): (k: nat)
    ensures k <= |s| && (k == |s| || s[k] != '#')
    ensures forall i :: 0 <= i < k ==> s[i] == '#'
  {
    if |s| > 0 && s[0] == '#' then 1 + HashRun(s[1..]) else 0
  }

  /** `^(#+)\s+(.*)` matched against a stripped line; group 2 is then stripped again. */
  function ParseHeader(line: string): Option<Header>
  {
    var k := HashRun(line);
    if 1 <= k < |line| && IsSpace(line[k]) then
      var rest := StripLeft(line[k..]);
      Some(Header(k, Strip(rest)))
    else None
  }

  /** A split of the line that the header pattern accepts: `k` hashes, then whitespace. */
  predicate HeaderSplit(line: string, k: nat)
  {
    1 <= k < |line| && (forall i :: 0 <= i < k ==> line[i] == '#') && IsSpace(line[k])
  }

  /**
   * A line is a header exactly when some run of hashes is followed by
   * whitespace; the level is the length of that run and the title is the
   * rest of the line, stripped.
   */
  lemma ParseHeaderMatches(line: string)
    ensures ParseHeader(line).Some? <==> exists k: nat :: HeaderSplit(line, k)
    ensures forall k: nat :: HeaderSplit(line, k) ==>
      ParseHeader(line).value.level == k && ParseHeader(line).value.title == Strip(line[k..])
  {
    var run := HashRun(line);
    forall k: nat | HeaderSplit(line, k) ensures run == k {
    }
    if 1 <= run < |line| {
      StripAfterStripLeft(line[run..]);
    }
    if ParseHeader(line).Some? {
      assert HeaderSplit(line, run);
    }
  }

  // ----- links: \[([^\]]+)\]\(([^)]+)\) -----

  datatype Match = Match(start: nat, text: string, target: string, end: nat)

  /** The link pattern tried at position `p`. */
  function MatchAt(line: string, p: nat): (m: Option<Match>)
    requires p <= |line|
    ensures m.Some? ==> m.value.start == p < m.value.end <= |line|
  {
    if p < |line| && line[p] == '[' then
      var q := IndexFrom(line, ']', p + 1);
      if q > p + 1 && q + 1 < |line| && line[q + 1] == '(' then
        var r := IndexFrom(line, ')', q + 2);
        if q + 2 < r < |line| then Some(Match(p, line[p + 1..q], line[q + 2..r], r + 1))
        else None
      else None
    else None
  }

  /** A match is an occurrence of the pattern: non-empty text without `]`, non-empty target without `)`. */
  lemma MatchAtSound(line: string, p: nat)
    requires p <= |line| && MatchAt(line, p).Some?
    ensures var m := MatchAt(line, p).value;
      |m.text| > 0 && ']' !in m.text && |m.target| > 0 && ')' !in m.target
      && line[p..m.end] == "[" + m.text + "](" + m.target + ")"
  {
    var m := MatchAt(line, p).value;
    var q := IndexFrom(line, ']', p + 1);
    var r := IndexFrom(line, ')', q + 2);
    assert m.text == line[p + 1..q] && m.target == line[q + 2..r] && m.end == r + 1;
    assert line[p..r + 1] == [line[p]] + line[p + 1..q] + [line[q], line[q + 1]] + line[q + 2..r] + [line[r]];
  }

  /** Conversely, every occurrence of the pattern at `p` is the match found there. */
  lemma MatchAtComplete(line: string, p: nat, text: string, target: string)
    requires |text| > 0 && ']' !in text && |target| > 0 && ')' !in target
    requires p + |text| + |target| + 4 <= |line|
    requires line[p..p + |text| + |target| + 4] == "[" + text + "](" + target + ")"
    ensures MatchAt(line, p) == Some(Match(p, text, target, p + |text| + |target| + 4))
  {
    var q := p + 1 + |text|;
    var r := q + 2 + |target|;
    assert line[p] == '[' && line[q + 1] == '(' by {
      PatternAt(line, p, text, target);
    }
    assert IndexFrom(line, ']', p + 1) == q by {
      PatternAt(line, p, text, target);
      forall i | p + 1 <= i < q ensures line[i] != ']' {
        assert line[i] == text[i - p - 1];
      }
      IndexFromIs(line, ']', p + 1, q);
    }
    assert IndexFrom(line, ')', q + 2) == r by {
      PatternAt(line, p, text, target);
      forall i | q + 2 <= i < r ensures line[i] != ')' {
        assert line[i] == target[i - q - 2];
      }
      IndexFromIs(line, ')', q + 2, r);
    }
    assert line[p + 1..q] == text by {
      PatternAt(line, p, text, target);
      forall i | 0 <= i < |text| ensures line[p + 1..q][i] == text[i] {
        assert line[p + 1..q][i] == line[p + 1 + i];
      }
    }
    assert line[q + 2..r] == target by {
      PatternAt(line, p, text, target);
      forall i | 0 <= i < |target| ensures line[q + 2..r][i] == target[i] {
        assert line[q + 2..r][i] == line[q + 2 + i];
      }
    }
  }

  /** The characters of an occurrence of the pattern, one by one. */
  lemma PatternAt(line: string, p: nat, text: string, target: string)
    requires p + |text| + |target| + 4 <= |line|
    requires line[p..p + |text| + |target| + 4] == "[" + text + "](" + target + ")"
    ensures var q := p + 1 + |text|; var r := q + 2 + |target|;
      line[p] == '[' && line[q] == ']' && line[q + 1] == '(' && line[r] == ')'
      && (forall i :: 0 <= i < |text| ==> line[p + 1 + i] == text[i])
      && (forall i :: 0 <= i < |target| ==> line[q + 2 + i] == target[i])
  {
    var s := "[" + text + "](" + target + ")";
    var e := p + |s|;
    forall i | 0 <= i < |s| ensures line[p + i] == s[i] {
      assert line[p..e][i] == line[p + i];
    }
    forall i | 0 <= i < |text| ensures line[p + 1 + i] == text[i] {
      assert s[1 + i] == text[i];
    }
    forall i | 0 <= i < |target| ensures line[p + 3 + |text| + i] == target[i] {
      assert s[3 + |text| + i] == target[i];
    }
    assert s[0] == '[' && s[1 + |text|] == ']' && s[2 + |text|] == '(' && s[|s| - 1] == ')';
  }

  lemma IndexFromIs(s: string, c: char, from: nat, j: nat)
    requires from <= j < |s| && s[j] == c && forall i :: from <= i < j ==> s[i] != c
    ensures IndexFrom(s, c, from) == j
  {
  }

  /** `finditer`: the leftmost match starting at or after `from`. */
  function NextMatch(line: string, from: nat): (m: Option<Match>)
    requires from <= |line|
    ensures m.Some? ==> from <= m.value.start < m.value.end <= |line|
    decreases |line| - from
  {
    if from == |line| then None
    else if MatchAt(line, from).Some? then MatchAt(line, from)
    else NextMatch(line, from + 1)
  }

  /** The match found is the one at its start, and no match starts earlier. */
  lemma {:induction false} NextMatchLeftmost(line: string, from: nat)
    requires from <= |line|
    ensures var m := NextMatch(line, from);
      (m.Some? ==> MatchAt(line, m.value.start) == m && forall p :: from <= p < m.value.start ==> MatchAt(line, p).None?)
      && (m.None? ==> forall p :: from <= p <= |line| ==> MatchAt(line, p).None?)
    decreases |line| - from
  {
    if from < |line| && MatchAt(line, from).None? {
      var m := NextMatch(line, from + 1);
      assert NextMatch(line, from) == m;
      NextMatchLeftmost(line, from + 1);
      var stop := if m.Some? then m.value.start else |line| + 1;
      forall p | from <= p < stop ensures MatchAt(line, p).None? {
        if p == from {
        }
      }
    }
  }

  /**
   * The entry for a match: the lowercased text before it decides the
   * relation, and an http target is always `follows`. The computed
   * internal/external type is not stored.
   */
  function LinkEntry(line: string, m: Match): Node
    requires m.start <= |line|
  {
    var preContext := LowerAscii(line[..m.start]);
    var relation :=
      if Contains(preContext, "see also") || Contains(preContext, "references") then Near
      else if Contains(preContext, "based on") || Contains(preContext, "implements")
        || Contains(preContext, "depends on") then Follows
      else Follows;
    var relation := if StartsWith(m.target, "http") then Follows else relation;
    Link(relation, m.target, m.text, Strip(preContext))
  }

  /** A link is `near` exactly when the text before it mentions "see also" or "references" and it is not http. */
  lemma LinkRelation(line: string, m: Match)
    requires m.start <= |line|
    ensures var pre := LowerAscii(line[..m.start]);
      LinkEntry(line, m).relation == Near
      <==> (Contains(pre, "see also") || Contains(pre, "references")) && !StartsWith(m.target, "http")
    ensures LinkEntry(line, m).text == m.text && LinkEntry(line, m).target == m.target
    ensures LinkEntry(line, m).context == Strip(LowerAscii(line[..m.start]))
  {
  }

  /** The link entries of a line from position `from` on, left to right. */
  function LinksFrom(line: string, from: nat): (links: seq<Node>)
    requires from <= |line|
    ensures forall i :: 0 <= i < |links| ==> links[i].Link?
    decreases |line| - from
  {
    match NextMatch(line, from)
    case None => []
    case Some(m) => [LinkEntry(line, m)] + LinksFrom(line, m.end)
  }

  /** Every link entry has non-empty text without `]` and a non-empty target without `)`. */
  lemma {:induction false} LinksWellFormed(line: string, from: nat)
    requires from <= |line|
    ensures forall n :: n in LinksFrom(line, from) ==>
      |n.text| > 0 && ']' !in n.text && |n.target| > 0 && ')' !in n.target
    decreases |line| - from
  {
    match NextMatch(line, from)
    case None =>
    case Some(m) =>
      NextMatchLeftmost(line, from);
      MatchAtSound(line, m.start);
      LinksWellFormed(line, m.end);
  }

  // ----- the tree of sections and the open-section spine -----

  /** Depths 0 .. d of the last-entry spine are sections (depth 0 is the root list). */
  predicate HasSpine(c: seq<Node>, d: nat)
    decreases d
  {
    d == 0 || (|c| > 0 && c[|c| - 1].Section? && HasSpine(c[|c| - 1].contains, d - 1))
  }

  /** The open list at depth `d`. */
  function ContainerAt(c: seq<Node>, d: nat): seq<Node>
    requires HasSpine(c, d)
    decreases d
  {
    if d == 0 then c else ContainerAt(c[|c| - 1].contains, d - 1)
  }

  /** `stack[d][1].extend(xs)`: appends to the open list at depth `d`. */
  function AppendAt(c: seq<Node>, d: nat, xs: seq<Node>): (r: seq<Node>)
    requires HasSpine(c, d)
    ensures |r| == if d == 0 then |c| + |xs| else |c|
    decreases d
  {
    if d == 0 then c + xs
    else
      var last := c[|c| - 1];
      c[..|c| - 1] + [last.(contains := AppendAt(last.contains, d - 1, xs))]
  }

  /** Appending at depth `d` keeps the spine and extends exactly the list at depth `d`. */
  lemma {:induction false} AppendAtContainer(c: seq<Node>, d: nat, xs: seq<Node>)
    requires HasSpine(c, d)
    ensures HasSpine(AppendAt(c, d, xs), d)
    ensures ContainerAt(AppendAt(c, d, xs), d) == ContainerAt(c, d) + xs
    decreases d
  {
    if d > 0 {
      AppendAtContainer(c[|c| - 1].contains, d - 1, xs);
    }
  }

  lemma {:induction false} AppendNothing(c: seq<Node>, d: nat)
    requires HasSpine(c, d)
    ensures AppendAt(c, d, []) == c
    decreases d
  {
    if d > 0 {
      AppendNothing(c[|c| - 1].contains, d - 1);
    }
  }

  /** Appending a section at depth `d` opens it at depth `d + 1`. */
  lemma {:induction false} AppendSectionOpens(c: seq<Node>, d: nat, s: Node)
    requires HasSpine(c, d) && s.Section?
    ensures HasSpine(AppendAt(c, d, [s]), d + 1)
    ensures ContainerAt(AppendAt(c, d, [s]), d + 1) == s.contains
    decreases d
  {
    if d > 0 {
      AppendSectionOpens(c[|c| - 1].contains, d - 1, s);
    }
  }

  /** Two appends at the same depth are one append of both. */
  lemma {:induction false} AppendAtTwice(c: seq<Node>, d: nat, xs: seq<Node>, ys: seq<Node>)
    requires HasSpine(c, d)
    ensures HasSpine(AppendAt(c, d, xs), d)
    ensures AppendAt(AppendAt(c, d, xs), d, ys) == AppendAt(c, d, xs + ys)
    decreases d
  {
    AppendAtContainer(c, d, xs);
    if d > 0 {
      AppendAtTwice(c[|c| - 1].contains, d - 1, xs, ys);
    }
  }

  lemma {:induction false} SpineShorter(c: seq<Node>, d: nat, e: nat)
    requires HasSpine(c, d) && e <= d
    ensures HasSpine(c, e)
    decreases d
  {
    if e > 0 {
      SpineShorter(c[|c| - 1].contains, d - 1, e - 1);
    }
  }

  /** No section anywhere in the tree has anything in its `follows` list. */
  predicate NoFollows(c: seq<Node>)
    decreases c
  {
    forall i :: 0 <= i < |c| ==> c[i].Section? ==> c[i].follows == [] && NoFollows(c[i].contains)
  }

  lemma {:induction false} AppendKeepsNoFollows(c: seq<Node>, d: nat, xs: seq<Node>)
    requires HasSpine(c, d) && NoFollows(c) && NoFollows(xs)
    ensures NoFollows(AppendAt(c, d, xs))
    decreases d
  {
    if d > 0 {
      var last := c[|c| - 1];
      assert NoFollows(last.contains);
      AppendKeepsNoFollows(last.contains, d - 1, xs);
      var r := AppendAt(c, d, xs);
      forall i | 0 <= i < |r| && r[i].Section? ensures r[i].follows == [] && NoFollows(r[i].contains) {
        if i < |c| - 1 {
          assert r[i] == c[i];
        }
      }
    } else {
      var r := c + xs;
      forall i | 0 <= i < |r| && r[i].Section? ensures r[i].follows == [] && NoFollows(r[i].contains) {
        if i < |c| {
          assert r[i] == c[i];
        } else {
          assert r[i] == xs[i - |c|];
        }
      }
    }
  }

  // ----- the stack of open levels -----

  /** The bottom entry is the root at level 0 and levels increase strictly upward. */
  predicate StackOk(stack: seq<nat>)
  {
    |stack| >= 1 && stack[0] == 0 && forall i, j :: 0 <= i < j < |stack| ==> stack[i] < stack[j]
  }

  /** How many open entries survive a header of level `level`: popping stops at the first lower level. */
  function Kept(stack: seq<nat>, level: nat): (k: nat)
    ensures k <= |stack|
  {
    if |stack| > 0 && stack[|stack| - 1] >= level then Kept(stack[..|stack| - 1], level) else |stack|
  }

  /**
   * The root entry is never popped, the entry left on top is the nearest
   * one of lower level, everything popped had the header's level or more,
   * and pushing the header keeps the levels increasing.
   */
  lemma {:induction false} KeptParent(stack: seq<nat>, level: nat)
    requires StackOk(stack) && level >= 1
    ensures var k := Kept(stack, level);
      1 <= k && stack[k - 1] < level && (forall j :: k <= j < |stack| ==> stack[j] >= level)
      && StackOk(stack[..k] + [level])
    decreases |stack|
  {
    var n := |stack|;
    if stack[n - 1] >= level {
      var rest := stack[..n - 1];
      assert n > 1;
      assert forall i, j :: 0 <= i < j < |rest| ==> rest[i] < rest[j];
      KeptParent(rest, level);
      assert rest[..Kept(rest, level)] == stack[..Kept(rest, level)];
    } else {
      var t := stack + [level];
      assert stack[..n] == stack;
      forall i, j | 0 <= i < j < |t| ensures t[i] < t[j] {
        if j == n {
          assert stack[i] <= stack[n - 1];
        }
      }
    }
  }

  /**
   * A header of level `level >= 1`: pops every open entry of level `level`
   * or more, appends the new section to the list of the entry left on top,
   * and opens it. The root entry is never popped, so `scan_file`'s
   * `if stack` guard always holds.
   */
  method AddSection(contains: seq<Node>, stack: seq<nat>, level: nat, title: string)
    returns (contains': seq<Node>, stack': seq<nat>)
    requires StackOk(stack) && HasSpine(contains, |stack| - 1) && level >= 1
    ensures 1 <= Kept(stack, level) && HasSpine(contains, Kept(stack, level) - 1)
    ensures stack' == stack[..Kept(stack, level)] + [level]
    ensures contains' == AppendAt(contains, Kept(stack, level) - 1, [Section(title, [], [])])
    ensures StackOk(stack') && HasSpine(contains', |stack'| - 1) && ContainerAt(contains', |stack'| - 1) == []
  {
    KeptParent(stack, level);
    var s := stack;
    while |s| > 0 && s[|s| - 1] >= level
      invariant |s| <= |stack| && s == stack[..|s|] && Kept(s, level) == Kept(stack, level)
    {
      s := s[..|s| - 1];
    }
    var section := Section(title, [], []);
    SpineShorter(contains, |stack| - 1, |s| - 1);
    contains' := AppendAt(contains, |s| - 1, [section]);
    AppendSectionOpens(contains, |s| - 1, section);
    stack' := s + [level];
  }

  /**
   * A line that is not a header: each link match, left to right, appends
   * one entry to the open list at depth `depth`.
   */
  method AddLinks(contains: seq<Node>, depth: nat, line: string) returns (contains': seq<Node>)
    requires HasSpine(contains, depth)
    ensures HasSpine(contains', depth)
    ensures contains' == AppendAt(contains, depth, LinksFrom(line, 0))
    ensures ContainerAt(contains', depth) == ContainerAt(contains, depth) + LinksFrom(line, 0)
  {
    contains' := contains;
    ghost var added: seq<Node> := [];
    AppendNothing(contains, depth);
    var pos := 0;
    ghost var all := LinksFrom(line, pos);
    var m := NextMatch(line, pos);
    while m.Some?
      invariant pos <= |line| && m == NextMatch(line, pos)
      invariant HasSpine(contains', depth) && contains' == AppendAt(contains, depth, added)
      invariant added + LinksFrom(line, pos) == all
      decreases |line| - pos
    {
      var entry := LinkEntry(line, m.value);
      assert HasSpine(AppendAt(contains', depth, [entry]), depth)
        && AppendAt(contains', depth, [entry]) == AppendAt(contains, depth, added + [entry]) by {
        AppendStep(contains, depth, added, entry);
      }
      LinksStep(line, pos, added);
      contains' := AppendAt(contains', depth, [entry]);
      added := added + [entry];
      pos := m.value.end;
      m := NextMatch(line, pos);
    }
    assert added == all by {
      LinksEnd(line, pos);
    }
    AppendAtContainer(contains, depth, added);
  }

  lemma AppendStep(c: seq<Node>, d: nat, added: seq<Node>, entry: Node)
    requires HasSpine(c, d)
    ensures HasSpine(AppendAt(c, d, added), d) && HasSpine(AppendAt(c, d, added + [entry]), d)
    ensures AppendAt(AppendAt(c, d, added), d, [entry]) == AppendAt(c, d, added + [entry])
  {
    AppendAtTwice(c, d, added, [entry]);
    AppendAtContainer(c, d, added + [entry]);
  }

  lemma LinksEnd(line: string, pos: nat)
    requires pos <= |line| && NextMatch(line, pos).None?
    ensures LinksFrom(line, pos) == []
  {
  }

  lemma LinksStep(line: string, pos: nat, added: seq<Node>)
    requires pos <= |line| && NextMatch(line, pos).Some?
    ensures var m := NextMatch(line, pos).value;
      added + LinksFrom(line, pos) == (added + [LinkEntry(line, m)]) + LinksFrom(line, m.end)
  {
    var m := NextMatch(line, pos).value;
    assert LinksFrom(line, pos) == [LinkEntry(line, m)] + LinksFrom(line, m.end);
  }

  /** The loop's state: the open lists are well formed and no section has a `follows` entry. */
  predicate Good(contains: seq<Node>, stack: seq<nat>)
  {
    StackOk(stack) && HasSpine(contains, |stack| - 1) && NoFollows(contains)
  }

  /**
   * What one stripped line does to the root's contents and the open levels:
   * a header pops the levels it closes and opens a new section under the
   * entry left on top; any other line appends its link entries to the
   * innermost open list. A header line is never searched for links.
   */
  function LineStep(contains: seq<Node>, stack: seq<nat>, line: string): (r: (seq<Node>, seq<nat>))
    requires Good(contains, stack)
    ensures Good(r.0, r.1)
  {
    match ParseHeader(line)
    case Some(h) =>
      KeptParent(stack, h.level);
      var k := Kept(stack, h.level);
      var section := Section(h.title, [], []);
      SpineShorter(contains, |stack| - 1, k - 1);
      AppendSectionOpens(contains, k - 1, section);
      AppendKeepsNoFollows(contains, k - 1, [section]);
      (AppendAt(contains, k - 1, [section]), stack[..k] + [h.level])
    case None =>
      LinksHaveNoFollows(line, 0);
      AppendAtContainer(contains, |stack| - 1, LinksFrom(line, 0));
      AppendKeepsNoFollows(contains, |stack| - 1, LinksFrom(line, 0));
      (AppendAt(contains, |stack| - 1, LinksFrom(line, 0)), stack)
  }

  /** The state after the lines of a file, each stripped, starting from the root alone at level 0. */
  function Outline(lines: seq<string>): (r: (seq<Node>, seq<nat>))
    ensures Good(r.0, r.1)
  {
    if lines == [] then ([], [0])
    else
      var prev := Outline(lines[..|lines| - 1]);
      LineStep(prev.0, prev.1, Strip(lines[|lines| - 1]))
  }

  /** The link entries of the stripped lines, in file order. */
  function AllLinks(lines: seq<string>): seq<Node>
  {
    if lines == [] then []
    else AllLinks(lines[..|lines| - 1]) + LinksFrom(Strip(lines[|lines| - 1]), 0)
  }

  /** A file without headers is a flat list of its link entries in the root, with only the root open. */
  lemma {:induction false} OutlineWithoutHeaders(lines: seq<string>)
    requires forall i :: 0 <= i < |lines| ==> ParseHeader(Strip(lines[i])).None?
    ensures Outline(lines) == (AllLinks(lines), [0])
  {
    if lines != [] {
      var init := lines[..|lines| - 1];
      assert forall i :: 0 <= i < |init| ==> ParseHeader(Strip(init[i])).None? by {
        forall i | 0 <= i < |init| ensures ParseHeader(Strip(init[i])).None? {
          assert init[i] == lines[i];
        }
      }
      OutlineWithoutHeaders(init);
    }
  }

  /** A level-1 header closes every open section and becomes the root's last entry. */
  lemma TopLevelHeader(lines: seq<string>, line: string)
    requires ParseHeader(Strip(line)).Some? && ParseHeader(Strip(line)).value.level == 1
    ensures var prev := Outline(lines);
      Outline(lines + [line])
        == (prev.0 + [Section(ParseHeader(Strip(line)).value.title, [], [])], [0, 1])
  {
    var prev := Outline(lines);
    var h := ParseHeader(Strip(line)).value;
    assert (lines + [line])[..|lines|] == lines;
    assert Outline(lines + [line]) == LineStep(prev.0, prev.1, Strip(line));
    assert Kept(prev.1, 1) == 1 by {
      KeptParent(prev.1, 1);
    }
    assert prev.1[..1] + [1] == [0, 1];
    assert AppendAt(prev.0, 0, [Section(h.title, [], [])]) == prev.0 + [Section(h.title, [], [])];
  }

  /** One stripped line of the loop: either a header or a source of links, never both. */
  method ScanLine(contains: seq<Node>, stack: seq<nat>, line: string)
    returns (contains': seq<Node>, stack': seq<nat>)
    requires Good(contains, stack)
    ensures (contains', stack') == LineStep(contains, stack, line)
  {
    var header := ParseHeader(line);
    if header.Some? {
      contains', stack' := AddSection(contains, stack, header.value.level, header.value.title);
    } else {
      contains' := AddLinks(contains, |stack| - 1, line);
      stack' := stack;
    }
  }

  lemma LinksHaveNoFollows(line: string, from: nat)
    requires from <= |line|
    ensures NoFollows(LinksFrom(line, from))
  {
  }

  /**
   * `scan_file` given the file's lines (or nothing when the file does not
   * exist): the root's contents are the outline of the lines, and its
   * `follows` and `near` lists and every section's `follows` list stay empty.
   */
  method ScanFile(name: string, path: string, lines: Option<seq<string>>) returns (r: ScanResult)
    ensures lines.None? <==> r.FileNotFound?
    ensures r.Scanned? ==>
      r.root.node == name && r.root.path == path && r.root.contains == Outline(lines.value).0
      && r.root.follows == [] && r.root.near == [] && NoFollows(r.root.contains)
  {
    if lines.None? {
      return FileNotFound;
    }
    var contains: seq<Node> := [];
    var stack: seq<nat> := [0];
    var i := 0;
    while i < |lines.value|
      invariant i <= |lines.value|
      invariant (contains, stack) == Outline(lines.value[..i])
    {
      assert lines.value[..i + 1][..i] == lines.value[..i];
      var line := Strip(lines.value[i]);
      contains, stack := ScanLine(contains, stack, line);
      i := i + 1;
    }
    assert lines.value[..i] == lines.value;
    r := Scanned(Root(name, path, contains, [], []));
  }
}
