/**
  The code clean-up both generation runs apply to the generator's reply:
  `code.replace(/```[a-z]*\n?/gi, '').replace(/```$/g, '').trim()`.
  The two regular expressions are written out directly over strings.
 */
module Sanitizer {
  import opened Text

  /** The Markdown code-fence delimiter. */
  const Fence: string := "```"

  /** The letters `[a-z]` matches under the `i` flag. */
  predicate IsAsciiLetter(c: char) {
    ('a' <= c <= 'z') || ('A' <= c <= 'Z')
  }

  ghost predicate AllLetters(s: string) {
    forall i :: 0 <= i < |s| ==> IsAsciiLetter(s[i])
  }

  ghost predicate FenceFree(s: string) {
    !Contains(s, Fence)
  }

  /** Length of the greedy `[a-z]*` match at the start of `s`. */
  function LetterRun(s: string): (n: nat)
    ensures n <= |s|
    ensures n < |s| ==> !IsAsciiLetter(s[n])
  {
    if |s| > 0 && IsAsciiLetter(s[0]) then 1 + LetterRun(s[1..]) else 0
  }

  /**
    The global replace of `/```[a-z]*\n?/gi` by the empty string: scanning
    left to right, every fence together with the language tag and the one
    line break that follow it is removed; every other character is kept.
   */
  function StripFences(s: string): (r: string)
    ensures |r| <= |s|
    decreases |s|
  {
    if StartsWith(s, Fence) then StripFences(SkipFence(s))
    else if |s| == 0 then ""
    else [s[0]] + StripFences(s[1..])
  }

  /** What follows one match of the pattern at the start of `s`. */
  function SkipFence(s: string): (r: string)
    requires StartsWith(s, Fence)
    ensures |r| < |s|
  {
    var rest := s[3..];
    var after := rest[LetterRun(rest)..];
    if |after| > 0 && after[0] == '\n' then after[1..] else after
  }

  /** `replace(/```$/g, '')`: one fence at the very end is removed. */
  function DropClosingFence(s: string): (r: string)
    ensures |r| <= |s|
    ensures r == s || r + Fence == s
  {
    if |s| >= 3 && s[|s| - 3..] == Fence then s[..|s| - 3] else s
  }

  /** The sanitiser of projectController.ts and userController.ts. */
  function Sanitize(raw: string): (r: string)
    ensures |r| <= |raw|
  {
    Trim(DropClosingFence(StripFences(raw)))
  }

  /** The sanitised code starts and ends with a character `trim` keeps. */
  lemma SanitizeTrimmed(raw: string)
    ensures Trimmed(Sanitize(raw))
  {
    TrimTrimmed(DropClosingFence(StripFences(raw)));
  }

  /** A character placed in front of a fence-free string keeps it fence-free
      unless it completes a fence with the string's first two characters. */
  lemma PrependFenceFree(c: char, t: string)
    requires FenceFree(t)
    requires !(c == '`' && |t| >= 2 && t[0] == '`' && t[1] == '`')
    ensures FenceFree([c] + t)
  {
    forall i | 0 <= i
      ensures !OccursAt([c] + t, Fence, i)
    {
      if i == 0 {
        if |t| >= 2 {
          assert ([c] + t)[..3] == [c, t[0], t[1]];
        }
      } else if i + 3 <= |t| + 1 {
        assert ([c] + t)[i..i + 3] == t[i - 1..i + 2];
        assert !OccursAt(t, Fence, i - 1);
      }
    }
  }

  /** Text not starting with a fence keeps its first character. */
  lemma KeepsHead(s: string)
    requires |s| > 0 && !StartsWith(s, Fence)
    ensures StripFences(s) == [s[0]] + StripFences(s[1..])
  {
  }

  /** Nothing the scan leaves behind forms a fence: a kept backtick is never
      followed by two more kept backticks. */
  lemma {:induction false} StripFencesFenceFree(s: string)
    ensures FenceFree(StripFences(s))
    decreases |s|
  {
    if StartsWith(s, Fence) {
      StripFencesFenceFree(SkipFence(s));
    } else if |s| == 0 {
      assert !OccursAt("", Fence, 0);
    } else {
      StripFencesFenceFree(s[1..]);
      KeptHeadFenceFree(s);
    }
  }

  /** The character the scan keeps at the head does not start a fence. */
  lemma KeptHeadFenceFree(s: string)
    requires |s| > 0 && !StartsWith(s, Fence)
    requires FenceFree(StripFences(s[1..]))
    ensures FenceFree(StripFences(s))
  {
    KeepsHead(s);
    NoTickPairAfterTick(s);
    PrependFenceFree(s[0], StripFences(s[1..]));
  }

  /**
    A kept backtick is not followed by two kept backticks: a backtick the
    scan keeps at the head of its output was a backtick at the head of its
    input, and three backticks at the head of `s` would be a fence.
   */
  lemma NoTickPairAfterTick(s: string)
    requires |s| > 0 && !StartsWith(s, Fence)
    ensures var t := StripFences(s[1..]); !(s[0] == '`' && |t| >= 2 && t[0] == '`' && t[1] == '`')
  {
    HeadTick(s[1..]);
    if |s| >= 2 && !StartsWith(s[1..], Fence) {
      KeepsHead(s[1..]);
      assert s[1..][1..] == s[2..];
      HeadTick(s[2..]);
    }
    if |s| >= 4 && StartsWith(s[1..], Fence) {
      assert s[1] == s[1..][..3][0] && s[2] == s[1..][..3][1];
    }
    if |s| >= 3 {
      NoFenceHead(s);
    }
  }

  /** Text that does not start with a fence does not start with three backticks. */
  lemma NoFenceHead(s: string)
    requires |s| >= 3 && !StartsWith(s, Fence)
    ensures s[0] != '`' || s[1] != '`' || s[2] != '`'
  {
    assert s[..3] == [s[0], s[1], s[2]];
  }

  /** The scan's output starts with a backtick only if its input does. */
  lemma HeadTick(x: string)
    ensures |StripFences(x)| > 0 && StripFences(x)[0] == '`' ==> |x| > 0 && x[0] == '`'
  {
    if |x| > 0 && !StartsWith(x, Fence) {
      KeepsHead(x);
    } else if StartsWith(x, Fence) {
      assert x[..3][0] == x[0];
    }
  }

  /** The scan leaves fence-free text untouched. */
  lemma {:induction false} StripFencesKeepsFenceFree(s: string)
    requires FenceFree(s)
    ensures StripFences(s) == s
    decreases |s|
  {
    if |s| > 0 {
      assert !OccursAt(s, Fence, 0);
      InfixFenceFree(s, 1, |s|);
      assert s[1..|s|] == s[1..];
      StripFencesKeepsFenceFree(s[1..]);
      assert s == [s[0]] + s[1..];
    }
  }

  /** Fence-free text never ends in a fence. */
  lemma DropClosingFenceKeepsFenceFree(s: string)
    requires FenceFree(s)
    ensures DropClosingFence(s) == s
  {
    assert |s| >= 3 ==> !OccursAt(s, Fence, |s| - 3);
  }

  /** Part of fence-free text is fence-free. */
  lemma InfixFenceFree(s: string, a: int, b: int)
    requires 0 <= a <= b <= |s| && FenceFree(s)
    ensures FenceFree(s[a..b])
  {
    forall i | 0 <= i ensures !OccursAt(s[a..b], Fence, i) {
      if i + 3 <= b - a {
        SliceOfSlice(s, a, b, i, i + 3);
        assert !OccursAt(s, Fence, a + i);
      }
    }
  }

  /** The sanitised code contains no fence. */
  lemma SanitizeFenceFree(raw: string)
    ensures FenceFree(Sanitize(raw))
  {
    var s := StripFences(raw);
    StripFencesFenceFree(raw);
    DropClosingFenceKeepsFenceFree(s);
    TrimIsInfix(s);
    var a, b :| 0 <= a <= b <= |s| && Trim(s) == s[a..b] && AllSpace(s[..a]) && AllSpace(s[b..]);
    InfixFenceFree(s, a, b);
  }

  /** Code without fences and without surrounding white space passes through unchanged. */
  lemma SanitizeKeepsPlainCode(code: string)
    requires FenceFree(code) && Trimmed(code)
    ensures Sanitize(code) == code
  {
    StripFencesKeepsFenceFree(code);
    DropClosingFenceKeepsFenceFree(code);
    TrimKeepsTrimmed(code);
  }

  /** Sanitising twice is sanitising once. */
  lemma SanitizeIdempotent(raw: string)
    ensures Sanitize(Sanitize(raw)) == Sanitize(raw)
  {
    SanitizeFenceFree(raw);
    SanitizeKeepsPlainCode(Sanitize(raw));
  }

  /** Fence-free text followed by text that does not start with a backtick
      is kept as it is by the scan. */
  lemma {:induction false} StripFencesPrefix(x: string, y: string)
    requires FenceFree(x)
    requires |y| > 0 && y[0] != '`'
    ensures StripFences(x + y) == x + StripFences(y)
    decreases |x|
  {
    if |x| == 0 {
      assert x + y == y;
    } else {
      PrefixStep(x, y);
      StripFencesPrefix(x[1..], y);
      AssocHead(x, StripFences(y));
    }
  }

  /** One step of the scan over fence-free text followed by a non-backtick. */
  lemma PrefixStep(x: string, y: string)
    requires FenceFree(x) && |x| > 0
    requires |y| > 0 && y[0] != '`'
    ensures StripFences(x + y) == [x[0]] + StripFences(x[1..] + y)
    ensures FenceFree(x[1..])
  {
    assert StripFences(x + y) == [x[0]] + StripFences(x[1..] + y) by {
      NoFenceAtJoin(x, y);
      KeepsHead(x + y);
      assert (x + y)[1..] == x[1..] + y;
    }
    assert FenceFree(x[1..]) by {
      InfixFenceFree(x, 1, |x|);
      assert x[1..|x|] == x[1..];
    }
  }

  lemma AssocHead(x: string, z: string)
    requires |x| > 0
    ensures [x[0]] + (x[1..] + z) == x + z
  {
    assert [x[0]] + x[1..] == x;
  }

  /** Fence-free text followed by a non-backtick does not start with a fence. */
  lemma NoFenceAtJoin(x: string, y: string)
    requires FenceFree(x) && |x| > 0
    requires |y| > 0 && y[0] != '`'
    ensures !StartsWith(x + y, Fence)
  {
    if |x| >= 3 {
      assert !OccursAt(x, Fence, 0);
      assert (x + y)[..3] == x[..3];
    } else {
      assert (x + y)[|x|] == y[0];
    }
  }

  /**
    A reply wrapped in a Markdown code block, "```" + language + line break
    + body + line break + "```", sanitises to the body, when the body has no
    fence of its own and no surrounding white space.
   */
  lemma SanitizeUnwrapsFencedBlock(lang: string, body: string)
    requires AllLetters(lang)
    requires FenceFree(body) && Trimmed(body)
    ensures Sanitize(Fence + lang + "\n" + body + "\n" + Fence) == body
  {
    FencedBlockStripped(lang, body);
    SanitizeStripped(Fence + lang + "\n" + body + "\n" + Fence, body);
  }

  /** Text the scan reduces to a trimmed body and a line break sanitises to the body. */
  lemma SanitizeStripped(s: string, body: string)
    requires Trimmed(body) && StripFences(s) == body + "\n"
    ensures Sanitize(s) == body
  {
    assert DropClosingFence(body + "\n") == body + "\n" by {
      assert (body + "\n")[|body|] == '\n';
    }
    TrimDropsTrailing(body, "\n");
  }

  /** The scan alone leaves the body and its final line break. */
  lemma FencedBlockStripped(lang: string, body: string)
    requires AllLetters(lang) && FenceFree(body)
    ensures StripFences(Fence + lang + "\n" + body + "\n" + Fence) == body + "\n"
  {
    var x := Fence + lang + "\n";
    ConcatAssoc(x, body, "\n");
    ConcatAssoc(x, body + "\n", Fence);
    OpeningFenceRemoved(lang, body + "\n" + Fence);
    ClosingFenceRemoved(body);
  }

  lemma ConcatAssoc(x: string, y: string, z: string)
    ensures x + y + z == x + (y + z)
  {
  }

  /** An opening fence with its language tag and line break is removed. */
  lemma OpeningFenceRemoved(lang: string, t: string)
    requires AllLetters(lang)
    ensures StripFences(Fence + lang + "\n" + t) == StripFences(t)
  {
    var s := Fence + lang + "\n" + t;
    var rest := s[3..];
    assert rest == lang + ("\n" + t);
    LetterRunOver(lang, "\n" + t);
    var after := rest[|lang|..];
    assert after == "\n" + t;
    assert after[1..] == t;
    assert s[..3] == Fence;
    assert SkipFence(s) == t;
  }

  /** A closing fence after a line break is removed, the line break kept. */
  lemma ClosingFenceRemoved(body: string)
    requires FenceFree(body)
    ensures StripFences(body + "\n" + Fence) == body + "\n"
  {
    assert body + "\n" + Fence == body + ("\n" + Fence);
    StripFencesPrefix(body, "\n" + Fence);
    assert StripFences("\n" + Fence) == "\n" by {
      KeepsHead("\n" + Fence);
      assert ("\n" + Fence)[1..] == Fence;
      SanitizeBareFence();
    }
  }

  lemma {:induction false} LetterRunOver(lang: string, t: string)
    requires AllLetters(lang)
    requires |t| > 0 && !IsAsciiLetter(t[0])
    ensures LetterRun(lang + t) == |lang|
    decreases |lang|
  {
    if |lang| == 0 {
      assert lang + t == t;
    } else {
      assert (lang + t)[1..] == lang[1..] + t;
      LetterRunOver(lang[1..], t);
    }
  }

  /** A reply that is nothing but a fence sanitises to the empty string. */
  lemma SanitizeBareFence()
    ensures StripFences(Fence) == "" && Sanitize(Fence) == ""
  {
    assert StripFences(Fence) == "";
  }
}
