/** Build-tag handling: the options' default tag, the substring test that
    marks a comment as a directive to drop, and the negated-tag lines that
    take its place. */
module Directive {
  import opened Bytes
  import opened Ast
  import opened Splicing

  const DefaultBuildTag: seq<byte> := Ascii("include")

  /** `Options`: the tag to toggle, and the directory include targets are
      resolved against (file resolution is not part of this model). */
  datatype Options = Options(buildTag: seq<byte>, workingDir: seq<byte>)

  /** The tag in effect: the configured one, or `include` when unset. */
  function Tag(o: Options): (t: seq<byte>)
    ensures t != []
    ensures o.buildTag != [] ==> t == o.buildTag
    ensures o.buildTag == [] ==> t == Ascii("include")
  {
    if o.buildTag == [] then DefaultBuildTag else o.buildTag
  }

  const GoBuildPrefix: seq<byte> := Ascii("go:build ")
  const PlusBuildPrefix: seq<byte> := Ascii("+build ")
  const GenerateMarker: seq<byte> := Ascii("go:generate include")

  /** A comment is consumed when its text mentions the tag's `go:build`
      or `+build` directive, or the generate marker, anywhere in it. */
  predicate IsDirective(text: seq<byte>, tag: seq<byte>)
  {
    || Contains(text, GoBuildPrefix + tag)
    || Contains(text, PlusBuildPrefix + tag)
    || Contains(text, GenerateMarker)
  }

  /** `//go:build !<tag>` and its newline. */
  function GoBuildLine(tag: seq<byte>): seq<byte>
  {
    Ascii("//go:build !") + tag + [Newline]
  }

  /** `// +build !<tag>` and its newline. */
  function PlusBuildLine(tag: seq<byte>): seq<byte>
  {
    Ascii("// +build !") + tag + [Newline]
  }

  /** The two lines written after the comment phase. */
  function NegatedLines(tag: seq<byte>): (r: seq<byte>)
    ensures |r| == 2 * |tag| + 25
  {
    GoBuildLine(tag) + PlusBuildLine(tag)
  }

  predicate AllBangs(tag: seq<byte>)
  {
    forall i | 0 <= i < |tag| :: tag[i] == Bang
  }

  /** `lead` followed by the bang is `line`'s start, and `tag` follows the bang. */
  lemma {:induction false} MatchAfterBang(line: seq<byte>, needle: seq<byte>, lead: seq<byte>, tag: seq<byte>, p: nat)
    requires |lead| >= 1
    requires line == lead + [Bang] + tag + [Newline]
    requires p < |lead|
    requires needle == lead[p..] + tag
    ensures OccursAt(line, needle, p) <==> AllBangs(tag)
  {
    var k := |lead| - p;
    assert |needle| == k + |tag|;
    assert p + |needle| == |lead| + |tag| < |line|;
    if AllBangs(tag) {
      forall j | 0 <= j < |needle|
        ensures line[p + j] == needle[j]
      {
        if j < k {
        } else if j == k {
          assert needle[j] == tag[0];
        } else {
          assert needle[j] == tag[j - k];
          assert line[p + j] == tag[j - k - 1];
        }
      }
      assert line[p..p + |needle|] == needle;
    }
    if OccursAt(line, needle, p) {
      forall i | 0 <= i < |tag|
        ensures tag[i] == Bang
      {
        BangChain(line, needle, k, tag, p, i);
      }
    }
  }

  lemma {:induction false} BangChain(line: seq<byte>, needle: seq<byte>, k: nat, tag: seq<byte>, p: nat, i: nat)
    requires p + k + 1 + |tag| <= |line|
    requires line[p + k] == Bang
    requires forall j | 0 <= j < |tag| :: line[p + k + 1 + j] == tag[j]
    requires |needle| == k + |tag|
    requires forall j | 0 <= j < |tag| :: needle[k + j] == tag[j]
    requires OccursAt(line, needle, p)
    requires i < |tag|
    ensures tag[i] == Bang
    decreases i
  {
    assert line[p + k + i] == needle[k + i];
    if i > 0 {
      BangChain(line, needle, k, tag, p, i - 1);
    }
  }

  /** When no offset but `p0` starts with the needle's first byte, the
      needle can only occur at `p0`. */
  lemma OnlyAt(line: seq<byte>, needle: seq<byte>, p0: int)
    requires |needle| > 0
    requires forall p | 0 <= p <= |line| - |needle| && p != p0 :: line[p] != needle[0]
    ensures Contains(line, needle) <==> OccursAt(line, needle, p0)
  {
    if Contains(line, needle) {
      var p :| 0 <= p <= |line| - |needle| && OccursAt(line, needle, p);
      assert line[p..p + |needle|][0] == needle[0];
    }
  }

  /** The line `//go:build !<tag>` mentions the tag's `go:build` directive
      exactly when the tag is all bangs (the empty tag included), and never
      its `+build` directive. */
  lemma GoBuildLineMatches(tag: seq<byte>)
    ensures Contains(GoBuildLine(tag), GoBuildPrefix + tag) <==> AllBangs(tag)
    ensures !Contains(GoBuildLine(tag), PlusBuildPrefix + tag)
  {
    var line := GoBuildLine(tag);
    var lead := Ascii("//go:build ");
    var needle := GoBuildPrefix + tag;
    var plus := PlusBuildPrefix + tag;
    assert line == lead + [Bang] + tag + [Newline];
    assert GoBuildPrefix == lead[2..];
    assert |line| == |needle| + 4 == |plus| + 6;
    assert line[0] == 47 && line[1] == 47 && line[2] == 103 && line[3] == 111;
    assert line[4] == 58 && line[5] == 98 && line[6] == 117;
    assert needle[0] == 103 && plus[0] == 43;
    forall p | 0 <= p <= 4 && p != 2
      ensures line[p] != needle[0]
    {
      assert p == 0 || p == 1 || p == 3 || p == 4;
    }
    OnlyAt(line, needle, 2);
    MatchAfterBang(line, needle, lead, tag, 2);
    forall p | 0 <= p <= 6
      ensures line[p] != plus[0]
    {
      assert p == 0 || p == 1 || p == 2 || p == 3 || p == 4 || p == 5 || p == 6;
    }
    OnlyAt(line, plus, -1);
  }

  /** Likewise `// +build !<tag>` mentions the tag's `+build` directive
      exactly when the tag is all bangs, and never its `go:build` one. */
  lemma PlusBuildLineMatches(tag: seq<byte>)
    ensures Contains(PlusBuildLine(tag), PlusBuildPrefix + tag) <==> AllBangs(tag)
    ensures !Contains(PlusBuildLine(tag), GoBuildPrefix + tag)
  {
    var line := PlusBuildLine(tag);
    var lead := Ascii("// +build ");
    var needle := PlusBuildPrefix + tag;
    var gob := GoBuildPrefix + tag;
    assert line == lead + [Bang] + tag + [Newline];
    assert PlusBuildPrefix == lead[3..];
    assert |line| == |needle| + 5 == |gob| + 3;
    assert line[0] == 47 && line[1] == 47 && line[2] == 32 && line[3] == 43;
    assert line[4] == 98 && line[5] == 117;
    assert needle[0] == 43 && gob[0] == 103;
    forall p | 0 <= p <= 5 && p != 3
      ensures line[p] != needle[0]
    {
      assert p == 0 || p == 1 || p == 2 || p == 4 || p == 5;
    }
    OnlyAt(line, needle, 3);
    MatchAfterBang(line, needle, lead, tag, 3);
    forall p | 0 <= p <= 3
      ensures line[p] != gob[0]
    {
      assert p == 0 || p == 1 || p == 2 || p == 3;
    }
    OnlyAt(line, gob, -1);
  }

  /** With any tag in effect after defaulting that is not all bangs (the
      default `include` among them), neither negated line is a directive for
      that tag's own directives. */
  lemma NegatedLinesInert(tag: seq<byte>)
    requires !AllBangs(tag)
    ensures !Contains(GoBuildLine(tag), GoBuildPrefix + tag) && !Contains(GoBuildLine(tag), PlusBuildPrefix + tag)
    ensures !Contains(PlusBuildLine(tag), GoBuildPrefix + tag) && !Contains(PlusBuildLine(tag), PlusBuildPrefix + tag)
  {
    GoBuildLineMatches(tag);
    PlusBuildLineMatches(tag);
  }

  /** With the default tag, the negated lines are not directives at all. */
  lemma DefaultNegatedLinesAreNotDirectives()
    ensures !IsDirective(GoBuildLine(DefaultBuildTag), DefaultBuildTag)
    ensures !IsDirective(PlusBuildLine(DefaultBuildTag), DefaultBuildTag)
  {
    var tag := DefaultBuildTag;
    assert tag[0] != Bang;
    NegatedLinesInert(tag);
    var g := GoBuildLine(tag);
    var q := PlusBuildLine(tag);
    assert |g| == 20 && |q| == 19 && |GenerateMarker| == 19;
    assert g[0] == 47 && g[1] == 47 && q[0] == 47 && GenerateMarker[0] == 103;
    forall p | 0 <= p <= 1
      ensures g[p] != GenerateMarker[0]
    {
      assert p == 0 || p == 1;
    }
    OnlyAt(g, GenerateMarker, -1);
    OnlyAt(q, GenerateMarker, -1);
  }

  /** The comment phase's edits: every directive comment, in source order,
      consumed with nothing written in its place. */
  function Consumed(comments: seq<Comment>, tag: seq<byte>): (r: seq<Edit>)
    ensures |r| <= |comments|
    ensures forall k | 0 <= k < |r| :: r[k].text == []
  {
    if comments == [] then []
    else
      var c := comments[0];
      var rest := Consumed(comments[1..], tag);
      if IsDirective(c.text, tag) then [Edit(c.pos, c.end, [])] + rest else rest
  }

  /** Exactly the directive comments are consumed: each one's span is among
      the edits, and every edit is the span of a directive comment. */
  lemma {:induction false} ConsumedExactly(comments: seq<Comment>, tag: seq<byte>)
    ensures forall c | c in comments && IsDirective(c.text, tag) :: Edit(c.pos, c.end, []) in Consumed(comments, tag)
    ensures forall e | e in Consumed(comments, tag) ::
      exists c | c in comments :: IsDirective(c.text, tag) && e == Edit(c.pos, c.end, [])
    decreases |comments|
  {
    if comments != [] {
      ConsumedExactly(comments[1..], tag);
      assert forall x | x in comments[1..] :: x in comments;
      assert forall x | x in comments :: x == comments[0] || x in comments[1..];
    }
  }

  /** A file without directive comments goes through the comment phase
      untouched. */
  lemma {:induction false} ConsumedNone(comments: seq<Comment>, tag: seq<byte>)
    requires forall c | c in comments :: !IsDirective(c.text, tag)
    ensures Consumed(comments, tag) == []
    decreases |comments|
  {
    if comments != [] {
      assert comments[0] in comments;
      assert forall x | x in comments[1..] :: x in comments;
      ConsumedNone(comments[1..], tag);
    }
  }
}
