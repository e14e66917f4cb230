/**
 * `EraseHtml` of StringExtensions.cs: replace every match of the regular
 * expression `<[^>]*>` by nothing, then every `&nbsp;` by one space, both
 * scanning left to right without overlap.
 */
module StringExtensions {

  const Nbsp: string := "&nbsp;"

  predicate StartsWith(s: string, prefix: string) {
    |prefix| <= |s| && s[..|prefix|] == prefix
  }

  /** No `<` is followed, anywhere later, by a `>`: nothing left for the regex to match. */
  predicate NoTag(s: string) {
    forall i, j :: 0 <= i < j < |s| && s[i] == '<' ==> s[j] != '>'
  }

  /** Whether `&nbsp;` occurs in `s`. */
  predicate ContainsNbsp(s: string)
    decreases |s|
  {
    s != [] && (StartsWith(s, Nbsp) || ContainsNbsp(s[1..]))
  }

  /** What follows the first `>`: the rest of the input after a match of `[^>]*>`. */
  function AfterTag(s: string): (r: string)
    requires '>' in s
    ensures |r| < |s|
    decreases |s|
  {
    if s[0] == '>' then s[1..]
    else
      assert '>' in s[1..] by { var k :| 0 <= k < |s| && s[k] == '>'; assert s[1..][k - 1] == '>'; }
      AfterTag(s[1..])
  }

  /**
   * `htmlTagsRegex.Replace(value, "")`: at each position a `<` with a `>`
   * somewhere after it starts a match that ends at the first such `>`;
   * any other character is kept.
   */
  function StripTags(s: string): string
    decreases |s|
  {
    if s == [] then []
    else if s[0] == '<' && '>' in s[1..] then StripTags(AfterTag(s[1..]))
    else [s[0]] + StripTags(s[1..])
  }

  /** `.Replace("&nbsp;", " ")`. */
  function ReplaceNbsp(s: string): string
    decreases |s|
  {
    if s == [] then []
    else if StartsWith(s, Nbsp) then " " + ReplaceNbsp(s[|Nbsp|..])
    else [s[0]] + ReplaceNbsp(s[1..])
  }

  /** `EraseHtml`. */
  function EraseHtml(value: string): string {
    ReplaceNbsp(StripTags(value))
  }

  /* ---- Helpers on the two predicates ---- */

  lemma NoTagCons(c: char, t: string)
    ensures NoTag([c] + t) <==> NoTag(t) && (c == '<' ==> '>' !in t)
  {
    var s := [c] + t;
    if NoTag(t) && (c == '<' ==> '>' !in t) {
      forall i, j | 0 <= i < j < |s| && s[i] == '<'
        ensures s[j] != '>'
      {
        if i == 0 {
          assert s[j] == t[j - 1];
        } else {
          assert s[i] == t[i - 1] && s[j] == t[j - 1];
        }
      }
    }
    if NoTag(s) {
      forall i, j | 0 <= i < j < |t| && t[i] == '<'
        ensures t[j] != '>'
      {
        assert s[i + 1] == t[i] && s[j + 1] == t[j];
      }
      if c == '<' {
        forall j | 0 <= j < |t| ensures t[j] != '>' {
          assert s[0] == '<' && s[j + 1] == t[j];
        }
      }
    }
  }

  /** The first `>` ends the match: what follows it is a suffix, also of any extension. */
  lemma {:induction false} AfterTagAppend(p: string, q: string)
    requires '>' in p
    ensures '>' in p + q && AfterTag(p + q) == AfterTag(p) + q
    decreases |p|
  {
    if p[0] != '>' {
      assert '>' in p[1..] by { var k :| 0 <= k < |p| && p[k] == '>'; assert p[1..][k - 1] == '>'; }
      assert (p + q)[1..] == p[1..] + q;
      AfterTagAppend(p[1..], q);
    }
  }

  /** Every character `StripTags` keeps comes from its input. */
  lemma {:induction false} StripTagsKeepsCharacters(s: string)
    ensures forall x :: x in StripTags(s) ==> x in s
    decreases |s|
  {
    if s != [] {
      if s[0] == '<' && '>' in s[1..] {
        AfterTagIsSuffix(s[1..]);
        StripTagsKeepsCharacters(AfterTag(s[1..]));
      } else {
        StripTagsKeepsCharacters(s[1..]);
      }
    }
  }

  lemma {:induction false} AfterTagIsSuffix(s: string)
    requires '>' in s
    ensures forall x :: x in AfterTag(s) ==> x in s
    decreases |s|
  {
    if s[0] != '>' {
      assert '>' in s[1..] by { var k :| 0 <= k < |s| && s[k] == '>'; assert s[1..][k - 1] == '>'; }
      AfterTagIsSuffix(s[1..]);
    }
  }

  /** Every character `ReplaceNbsp` produces is from its input, or the space. */
  lemma {:induction false} ReplaceNbspKeepsCharacters(s: string)
    ensures forall x :: x in ReplaceNbsp(s) ==> x in s || x == ' '
    decreases |s|
  {
    if s != [] {
      if StartsWith(s, Nbsp) {
        ReplaceNbspKeepsCharacters(s[|Nbsp|..]);
      } else {
        ReplaceNbspKeepsCharacters(s[1..]);
      }
    }
  }

  /* ---- Properties ---- */

  /** The output of `StripTags` has no `<` followed later by a `>`. */
  lemma {:induction false} StripTagsLeavesNoTag(s: string)
    ensures NoTag(StripTags(s))
    decreases |s|
  {
    if s != [] {
      if s[0] == '<' && '>' in s[1..] {
        StripTagsLeavesNoTag(AfterTag(s[1..]));
      } else {
        StripTagsLeavesNoTag(s[1..]);
        StripTagsKeepsCharacters(s[1..]);
        NoTagCons(s[0], StripTags(s[1..]));
      }
    }
  }

  /** Text with nothing to match is kept as it is. */
  lemma {:induction false} StripTagsOfNoTag(s: string)
    requires NoTag(s)
    ensures StripTags(s) == s
    decreases |s|
  {
    if s != [] {
      NoTagCons(s[0], s[1..]);
      assert [s[0]] + s[1..] == s;
      StripTagsOfNoTag(s[1..]);
    }
  }

  /** A tail without a `>` is kept whole: an unclosed `<` in it matches nothing. */
  lemma {:induction false} StripTagsAppendUnclosed(p: string, q: string)
    requires '>' !in q
    ensures StripTags(p + q) == StripTags(p) + q
    decreases |p|
  {
    if p == [] {
      assert p + q == q;
      forall i, j | 0 <= i < j < |q| && q[i] == '<' ensures q[j] != '>' {
        assert q[j] in q;
      }
      StripTagsOfNoTag(q);
    } else {
      assert (p + q)[0] == p[0] && (p + q)[1..] == p[1..] + q;
      if p[0] == '<' && '>' in p[1..] {
        AfterTagAppend(p[1..], q);
        StripTagsAppendUnclosed(AfterTag(p[1..]), q);
      } else {
        assert p[0] == '<' ==> '>' !in p[1..] + q;
        StripTagsAppendUnclosed(p[1..], q);
        assert [p[0]] + (StripTags(p[1..]) + q) == ([p[0]] + StripTags(p[1..])) + q;
      }
    }
  }

  /** In particular a `<` with no later `>` is kept, with everything after it. */
  lemma UnclosedTagKept(p: string, q: string)
    requires '>' !in q
    ensures StripTags(p + "<" + q) == StripTags(p) + "<" + q
  {
    assert p + "<" + q == p + ("<" + q);
    StripTagsAppendUnclosed(p, "<" + q);
    assert StripTags(p) + ("<" + q) == StripTags(p) + "<" + q;
  }

  /** A matched tag vanishes whole: `<` through the first `>`. */
  lemma TagRemoved(p: string, body: string, q: string)
    requires '>' !in body
    ensures StripTags("<" + body + ">" + q) == StripTags(q)
  {
    var s := "<" + body + ">" + q;
    assert s[1..] == body + (">" + q);
    assert (">" + q)[0] == '>';
    AfterTagAppend(">", q);
    assert '>' in s[1..] by { assert s[1..][|body|] == '>'; }
    SkipBody(body, ">" + q);
  }

  /** Skipping to the first `>` passes over a body without one. */
  lemma {:induction false} SkipBody(body: string, rest: string)
    requires '>' !in body && '>' in rest
    ensures '>' in body + rest && AfterTag(body + rest) == AfterTag(rest)
    decreases |body|
  {
    var k :| 0 <= k < |rest| && rest[k] == '>';
    assert (body + rest)[|body| + k] == '>';
    if body == [] {
      assert body + rest == rest;
    } else {
      assert body[0] in body;
      assert (body + rest)[0] == body[0];
      assert (body + rest)[1..] == body[1..] + rest;
      assert '>' !in body[1..] by {
        forall x | x in body[1..] ensures x in body { }
      }
      SkipBody(body[1..], rest);
    }
  }

  /** `ReplaceNbsp` keeps the order of `<` and `>`, adding only spaces. */
  lemma {:induction false} ReplaceNbspKeepsNoTag(s: string)
    requires NoTag(s)
    ensures NoTag(ReplaceNbsp(s))
    decreases |s|
  {
    if s != [] {
      NoTagCons(s[0], s[1..]);
      assert [s[0]] + s[1..] == s;
      if StartsWith(s, Nbsp) {
        NoTagSuffix(s, |Nbsp|);
        ReplaceNbspKeepsNoTag(s[|Nbsp|..]);
        NoTagCons(' ', ReplaceNbsp(s[|Nbsp|..]));
      } else {
        ReplaceNbspKeepsNoTag(s[1..]);
        ReplaceNbspKeepsCharacters(s[1..]);
        NoTagCons(s[0], ReplaceNbsp(s[1..]));
      }
    }
  }

  lemma NoTagSuffix(s: string, k: nat)
    requires NoTag(s) && k <= |s|
    ensures NoTag(s[k..])
  {
    var t := s[k..];
    forall i, j | 0 <= i < j < |t| && t[i] == '<' ensures t[j] != '>' {
      assert s[k + i] == t[i] && s[k + j] == t[j];
    }
  }

  lemma StartsWithHead(s: string, w: string)
    requires w != [] && StartsWith(s, w)
    ensures s[0] == w[0] && w[0] in w
  {
    assert s[..|w|][0] == s[0];
  }

  /** A prefix without spaces in the output is a prefix of the input too. */
  lemma {:induction false} ReplaceNbspPrefix(s: string, w: string)
    requires ' ' !in w && StartsWith(ReplaceNbsp(s), w)
    ensures StartsWith(s, w)
    decreases |s|
  {
    if w != [] && s != [] {
      var r := ReplaceNbsp(s);
      if StartsWith(s, Nbsp) {
        StartsWithHead(r, w);
        assert false;
      } else {
        assert r == [s[0]] + ReplaceNbsp(s[1..]);
        assert r[1..] == ReplaceNbsp(s[1..]);
        StartsWithHead(r, w);
        assert StartsWith(ReplaceNbsp(s[1..]), w[1..]) by {
          assert r[1..][..|w| - 1] == r[1..|w|];
        }
        assert ' ' !in w[1..] by {
          forall x | x in w[1..] ensures x != ' ' { assert x in w; }
        }
        ReplaceNbspPrefix(s[1..], w[1..]);
        assert s[..|w|] == [s[0]] + s[1..][..|w| - 1];
      }
    }
  }

  /** No `&nbsp;` survives the replacement, not even one formed across a replaced one. */
  lemma {:induction false} ReplaceNbspLeavesNone(s: string)
    ensures !ContainsNbsp(ReplaceNbsp(s))
    decreases |s|
  {
    if s != [] {
      var r := ReplaceNbsp(s);
      if StartsWith(s, Nbsp) {
        ReplaceNbspLeavesNone(s[|Nbsp|..]);
        assert r[1..] == ReplaceNbsp(s[|Nbsp|..]);
        assert !StartsWith(r, Nbsp) by {
          assert r[0] == ' ';
          if |r| >= 6 { assert r[..6][0] == r[0]; }
        }
      } else {
        ReplaceNbspLeavesNone(s[1..]);
        assert r[1..] == ReplaceNbsp(s[1..]);
        if StartsWith(r, Nbsp) {
          assert r[0] == s[0] && r[..6][0] == r[0];
          assert s[0] == '&';
          assert StartsWith(ReplaceNbsp(s[1..]), "nbsp;") by {
            assert ReplaceNbsp(s[1..])[..5] == r[1..6];
          }
          ReplaceNbspPrefix(s[1..], "nbsp;");
          assert false;
        }
      }
    }
  }

  /** Text without `&nbsp;` is kept as it is. */
  lemma {:induction false} ReplaceNbspOfNone(s: string)
    requires !ContainsNbsp(s)
    ensures ReplaceNbsp(s) == s
    decreases |s|
  {
    if s != [] {
      ReplaceNbspOfNone(s[1..]);
      assert [s[0]] + s[1..] == s;
    }
  }

  /** Neither step lengthens the text. */
  lemma {:induction false} StripTagsShortens(s: string)
    ensures |StripTags(s)| <= |s|
    decreases |s|
  {
    if s != [] {
      if s[0] == '<' && '>' in s[1..] {
        StripTagsShortens(AfterTag(s[1..]));
      } else {
        StripTagsShortens(s[1..]);
      }
    }
  }

  lemma {:induction false} ReplaceNbspShortens(s: string)
    ensures |ReplaceNbsp(s)| <= |s|
    decreases |s|
  {
    if s != [] {
      if StartsWith(s, Nbsp) {
        ReplaceNbspShortens(s[|Nbsp|..]);
      } else {
        ReplaceNbspShortens(s[1..]);
      }
    }
  }

  /**
   * `EraseHtml` leaves no `<` followed later by a `>`, never lengthens the
   * text, and leaves no `&nbsp;`.
   */
  lemma EraseHtmlResult(value: string)
    ensures var r := EraseHtml(value);
      && (forall i, j :: 0 <= i < j < |r| && r[i] == '<' ==> r[j] != '>')
      && |r| <= |value|
      && !ContainsNbsp(r)
  {
    StripTagsLeavesNoTag(value);
    ReplaceNbspKeepsNoTag(StripTags(value));
    StripTagsShortens(value);
    ReplaceNbspShortens(StripTags(value));
    ReplaceNbspLeavesNone(StripTags(value));
  }

  /** Text with no `<` and no `&nbsp;` comes back unchanged. */
  lemma EraseHtmlOfPlainText(value: string)
    requires '<' !in value && !ContainsNbsp(value)
    ensures EraseHtml(value) == value
  {
    assert NoTag(value) by {
      forall i, j | 0 <= i < j < |value| ensures !(value[i] == '<' && value[j] == '>') {
        assert value[i] in value;
      }
    }
    StripTagsOfNoTag(value);
    ReplaceNbspOfNone(value);
  }

  /** Erasing twice is erasing once. */
  lemma EraseHtmlIdempotent(value: string)
    ensures EraseHtml(EraseHtml(value)) == EraseHtml(value)
  {
    var r := EraseHtml(value);
    EraseHtmlResult(value);
    StripTagsOfNoTag(r);
    ReplaceNbspOfNone(r);
  }

  /** Bold text with a non-breaking space: the tags go, the entity becomes a space. */
  lemma EraseHtmlExample()
    ensures EraseHtml("<b>" + "x&nbsp;y" + "</b>") == "x y"
  {
    StripTagsExample("x&nbsp;y");
    ReplaceNbspExample();
  }

  /** Text without `<` inside one bold element keeps just that text. */
  lemma StripTagsExample(inner: string)
    requires '<' !in inner
    ensures StripTags("<b>" + inner + "</b>") == inner
  {
    TagRemoved("", "/b", "");
    assert "<" + "/b" + ">" + "" == "</b>";
    StripTagsPlainPrefix(inner, "</b>");
    assert inner + StripTags([]) == inner;
    TagRemoved("", "b", inner + "</b>");
    assert "<" + "b" + ">" + (inner + "</b>") == "<b>" + inner + "</b>";
  }

  lemma ReplaceNbspExample()
    ensures ReplaceNbsp("x&nbsp;y") == "x y"
  {
    ReplaceNbspPlainPrefix("x", Nbsp + "y");
    assert "x" + (Nbsp + "y") == "x&nbsp;y";
    assert StartsWith(Nbsp + "y", Nbsp);
    assert (Nbsp + "y")[|Nbsp|..] == "y";
    assert ReplaceNbsp("y") == "y";
  }

  /** A prefix without `<` passes through `StripTags`. */
  lemma {:induction false} StripTagsPlainPrefix(p: string, q: string)
    requires '<' !in p
    ensures StripTags(p + q) == p + StripTags(q)
    decreases |p|
  {
    if p != [] {
      assert (p + q)[0] == p[0] && (p + q)[1..] == p[1..] + q;
      StripTagsPlainPrefix(p[1..], q);
      assert [p[0]] + (p[1..] + StripTags(q)) == p + StripTags(q);
    } else {
      assert p + q == q;
    }
  }

  /** A prefix without `&` passes through `ReplaceNbsp`. */
  lemma {:induction false} ReplaceNbspPlainPrefix(p: string, q: string)
    requires '&' !in p
    ensures ReplaceNbsp(p + q) == p + ReplaceNbsp(q)
    decreases |p|
  {
    if p != [] {
      assert (p + q)[0] == p[0] && (p + q)[1..] == p[1..] + q;
      assert !StartsWith(p + q, Nbsp);
      ReplaceNbspPlainPrefix(p[1..], q);
      assert [p[0]] + (p[1..] + ReplaceNbsp(q)) == p + ReplaceNbsp(q);
    } else {
      assert p + q == q;
    }
  }
}
