/**
 * Properties of the string helpers: `stripTags` is the left-to-right
 * global replace of the regular-expression engine, leaves nothing it would
 * strip again, and removes whole tags; `editIcon` writes a link that reads
 * back to the story's edit page.
 */
module HbsLaws {
  import opened Wrappers
  import opened JsStrings
  import opened Hbs

  // --------------------------------------------------------------- stripTags

  /** No `<` in `s` starts a match of the tag pattern. */
  ghost predicate TagFree(s: string) {
    forall i :: 0 <= i < |s| && s[i] == '<' ==> TagClose(s[i + 1..]).None?
  }

  /**
   * The scan after a `<` stops at the first `>` or breaking terminator: if
   * the first `m` characters are neither, what follows decides the match.
   */
  lemma {:induction false} TagCloseAfter(t: string, m: nat)
    requires m <= |t|
    requires forall k :: 0 <= k < m ==> t[k] != '>' && !Breaks(t[k])
    ensures m < |t| && t[m] == '>' ==> TagClose(t) == Some(m)
    ensures m == |t| || (m < |t| && Breaks(t[m])) ==> TagClose(t) == None
  {
    if m > 0 {
      TagCloseAfter(t[1..], m - 1);
    }
  }

  /** Without a breaking terminator, a `<` starts no match only if no `>` follows it. */
  lemma {:induction false} NoCloseMeansNoGt(t: string)
    requires TagClose(t).None? && Unbroken(t)
    ensures '>' !in t
  {
    if t != [] {
      assert t[0] != '>' && !Breaks(t[0]);
      NoCloseMeansNoGt(t[1..]);
      assert t == [t[0]] + t[1..];
    }
  }

  /** An input without `<` comes back unchanged. */
  lemma StripTagsWithoutAngle(s: string)
    requires '<' !in s
    ensures StripTags(s) == s
  {
  }

  /** `stripTags` only ever drops characters: everything it returns was in its input. */
  lemma {:induction false} StripTagsOnlyDrops(s: string)
    ensures forall c :: c in StripTags(s) ==> c in s
    decreases |s|
  {
    if s != [] {
      if s[0] == '<' && TagClose(s[1..]).Some? {
        var from := TagClose(s[1..]).value + 2;
        StripTagsOnlyDrops(s[from..]);
        assert forall c :: c in s[from..] ==> c in s;
      } else {
        StripTagsOnlyDrops(s[1..]);
        assert StripTags(s) == [s[0]] + StripTags(s[1..]);
        assert forall c :: c in s[1..] ==> c in s;
      }
    }
  }

  /** A `<` that starts no match in `t` starts none once `t` is stripped. */
  lemma {:induction false} NoCloseSurvivesStripping(t: string)
    requires TagClose(t).None?
    ensures TagClose(StripTags(t)).None?
    decreases |t|
  {
    if t != [] {
      var r := [t[0]] + StripTags(t[1..]);
      assert t[0] != '>';
      assert StripTags(t) == r;
      assert r[1..] == StripTags(t[1..]);
      if !Breaks(t[0]) {
        NoCloseSurvivesStripping(t[1..]);
      }
    }
  }

  /** What `stripTags` returns holds no match of the pattern any more. */
  lemma {:induction false} StripTagsLeavesNoTag(s: string)
    ensures TagFree(StripTags(s))
    decreases |s|
  {
    if s != [] {
      if s[0] == '<' && TagClose(s[1..]).Some? {
        StripTagsLeavesNoTag(s[TagClose(s[1..]).value + 2..]);
      } else {
        var rest := StripTags(s[1..]);
        var r := [s[0]] + rest;
        assert StripTags(s) == r;
        StripTagsLeavesNoTag(s[1..]);
        forall i | 0 <= i < |r| && r[i] == '<'
          ensures TagClose(r[i + 1..]).None?
        {
          if i == 0 {
            assert r[1..] == rest;
            NoCloseSurvivesStripping(s[1..]);
          } else {
            assert r[i + 1..] == rest[i..];
            assert rest[i - 1] == '<';
          }
        }
      }
    }
  }

  /** A string with no match in it comes back from `stripTags` unchanged. */
  lemma {:induction false} TagFreeIsFixed(s: string)
    requires TagFree(s)
    ensures StripTags(s) == s
    decreases |s|
  {
    if s != [] {
      assert TagFree(s[1..]) by {
        forall i | 0 <= i < |s[1..]| && s[1..][i] == '<'
          ensures TagClose(s[1..][i + 1..]).None?
        {
          assert s[1..][i + 1..] == s[i + 2..];
        }
      }
      TagFreeIsFixed(s[1..]);
      assert s == [s[0]] + s[1..];
    }
  }

  /** `stripTags` is idempotent. */
  lemma StripTagsIdempotent(s: string)
    ensures StripTags(StripTags(s)) == StripTags(s)
  {
    StripTagsLeavesNoTag(s);
    TagFreeIsFixed(StripTags(s));
  }

  /**
   * Unless the input holds a `\r`, U+2028 or U+2029, no `<` of the output
   * is followed anywhere later by a `>`.
   */
  lemma NoTagSurvives(s: string)
    requires Unbroken(s)
    ensures forall i, j :: 0 <= i < j < |StripTags(s)| && StripTags(s)[i] == '<' ==>
      StripTags(s)[j] != '>'
  {
    var r := StripTags(s);
    StripTagsLeavesNoTag(s);
    StripTagsOnlyDrops(s);
    forall i, j | 0 <= i < j < |r| && r[i] == '<'
      ensures r[j] != '>'
    {
      var t := r[i + 1..];
      assert Unbroken(t) by {
        forall k | 0 <= k < |t|
          ensures !Breaks(t[k])
        {
          assert t[k] == r[i + 1 + k];
          assert t[k] in s;
        }
      }
      NoCloseMeansNoGt(t);
      assert t[j - i - 1] == r[j];
    }
  }

  /** A prefix without `<` passes through `stripTags` untouched. */
  lemma {:induction false} StripTagsKeepsPlainPrefix(a: string, x: string)
    requires '<' !in a
    ensures StripTags(a + x) == a + StripTags(x)
  {
    if a != [] {
      assert a[0] != '<' && (a + x)[0] == a[0];
      assert (a + x)[1..] == a[1..] + x;
      StripTagsKeepsPlainPrefix(a[1..], x);
      assert StripTags(a + x) == [a[0]] + StripTags(a[1..] + x);
      assert a == [a[0]] + a[1..];
    } else {
      assert a + x == x;
    }
  }

  /**
   * The first `<` goes together with everything up to the first `>` after
   * it, provided no breaking terminator lies between them.
   */
  lemma {:induction false} StripTagsDropsTag(a: string, t: string, b: string)
    requires '<' !in a
    requires '>' !in t && Unbroken(t)
    ensures StripTags(a + "<" + t + ">" + b) == a + StripTags(b)
  {
    var tag := "<" + t + ">" + b;
    assert StripTags(tag) == StripTags(b) by {
      assert tag[1..] == t + ">" + b;
      TagCloseAfter(tag[1..], |t|);
      assert tag[0] == '<' && TagClose(tag[1..]) == Some(|t|);
      assert tag[|t| + 2..] == b;
    }
    assert a + "<" + t + ">" + b == a + tag;
    StripTagsKeepsPlainPrefix(a, tag);
  }

  /**
   * A carriage return keeps a tag from matching, while a line feed does
   * not: the `.` atom refuses both and only `\n` has its own alternative.
   */
  lemma CarriageReturnKeepsTag()
    ensures StripTags("<b\r>") == "<b\r>"
    ensures StripTags("<b\n>") == ""
  {
    var broken := "<b\r>";
    TagCloseAfter(broken[1..], 1);
    assert StripTags(broken[1..]) == broken[1..] by {
      assert '<' !in broken[1..];
      StripTagsWithoutAngle(broken[1..]);
    }
    assert StripTags(broken) == [broken[0]] + StripTags(broken[1..]);
    var whole := "<b\n>";
    TagCloseAfter(whole[1..], 2);
    assert StripTags(whole) == StripTags(whole[4..]);
  }

  /**
   * The engine's global replace: from `lastIndex`, try a match; on success
   * drop it and resume after it, otherwise keep one character and move on.
   */
  method ReplaceTags(s: string) returns (r: string)
    ensures r == StripTags(s)
  {
    r := [];
    var lastIndex: nat := 0;
    ScanStarts(s);
    while lastIndex < |s|
      invariant Scanned(s, lastIndex, r)
      decreases |s| - lastIndex
    {
      lastIndex, r := ScanStep(s, lastIndex, r);
    }
    ScanEnds(s, r);
  }

  /**
   * One attempt at `at`: a match is dropped and the scan resumes after it;
   * otherwise the character is kept and the scan moves on by one.
   */
  method ScanStep(s: string, at: nat, done: string) returns (next: nat, kept: string)
    requires at < |s|
    requires Scanned(s, at, done)
    ensures at < next
    ensures Scanned(s, next, kept)
  {
    var close := MatchAt(s, at);
    next := if close >= 0 then close + 1 else at + 1;
    kept := if close >= 0 then done else done + [s[at]];
    ScanAdvances(s, at, close, done, next, kept);
  }

  /** The first `at` characters of `s` have been scanned, and `done` is what they left. */
  ghost predicate Scanned(s: string, at: nat, done: string) {
    at <= |s| && done + StripTags(s[at..]) == StripTags(s)
  }

  /** Nothing scanned, nothing kept. */
  lemma ScanStarts(s: string)
    ensures Scanned(s, 0, [])
  {
  }

  /** Once every character is scanned, what was kept is the stripped string. */
  lemma ScanEnds(s: string, done: string)
    requires Scanned(s, |s|, done)
    ensures done == StripTags(s)
  {
  }

  /**
   * The attempt to match at `at`: the index of the `>` that ends a match
   * starting there, or -1 when none starts there.
   */
  method MatchAt(s: string, at: nat) returns (close: int)
    requires at < |s|
    ensures close == -1 || at < close < |s|
    ensures MatchEnd(s, at, close)
  {
    close := -1;
    if s[at] == '<' {
      var j := at + 1;
      while j < |s| && s[j] != '>' && !Breaks(s[j])
        invariant at + 1 <= j <= |s|
        invariant forall k :: at + 1 <= k < j ==> s[k] != '>' && !Breaks(s[k])
      {
        j := j + 1;
      }
      TagCloseAfter(s[at + 1..], j - at - 1);
      if j < |s| && s[j] == '>' {
        close := j;
      }
    }
  }

  /**
   * `close` is where the match starting at `at` ends, or -1 when no match
   * starts there.
   */
  ghost predicate MatchEnd(s: string, at: nat, close: int)
    requires at < |s|
  {
    && (close == -1 <==> !(s[at] == '<' && TagClose(s[at + 1..]).Some?))
    && (close >= 0 ==> TagClose(s[at + 1..]) == Some(close - at - 1))
  }

  /**
   * One attempt moves the scan on: a match at `at` is dropped whole and the
   * scan resumes after its `>`; a character at which no match starts is kept.
   */
  lemma ScanAdvances(s: string, at: nat, close: int, done: string, next: nat, kept: string)
    requires at < |s|
    requires close == -1 || at < close < |s|
    requires MatchEnd(s, at, close)
    requires Scanned(s, at, done)
    requires next == if close >= 0 then close + 1 else at + 1
    requires kept == if close >= 0 then done else done + [s[at]]
    ensures Scanned(s, next, kept)
  {
    var rest := s[at..];
    assert rest[1..] == s[at + 1..];
    if close >= 0 {
      assert rest[0] == '<' && TagClose(rest[1..]) == Some(close - at - 1);
      assert rest[close - at + 1..] == s[close + 1..];
      assert StripTags(rest) == StripTags(s[close + 1..]);
    } else {
      assert StripTags(rest) == [s[at]] + StripTags(s[at + 1..]);
      assert kept + StripTags(s[at + 1..]) == done + StripTags(rest);
    }
  }

  // ---------------------------------------------------------------- editIcon

  /**
   * The owner's edit link reads back as a link to the story's edit page in
   * the style the flag selected, floating when the flag is omitted. Object
   * ids are hexadecimal and hold no quote.
   */
  lemma EditIconRoundTrip(storyUser: string, loggedUser: string, storyId: string,
                          floating: Option<bool>)
    requires storyUser == loggedUser
    requires '"' !in storyId
    ensures ParseAnchor(EditIcon(storyUser, loggedUser, storyId, floating))
      == Some(Anchor(EditPath + storyId, floating.GetOr(true)))
  {
    var href := EditPath + storyId;
    var tail := LinkTail(floating.GetOr(true));
    assert '"' !in EditPath;
    assert EditIcon(storyUser, loggedUser, storyId, floating) == "<a href=\"" + href + "\"" + tail;
    ParseLink(href, tail, floating.GetOr(true));
  }

  /** An anchor with a quote-free target and either tail parses back to its parts. */
  lemma ParseLink(href: string, tail: string, floating: bool)
    requires '"' !in href
    requires floating ==> FloatingClass + ">" <= tail && tail[0] == ' '
    requires !floating ==> |tail| > 0 && tail[0] == '>'
    ensures ParseAnchor("<a href=\"" + href + "\"" + tail) == Some(Anchor(href, floating))
  {
    var open := "<a href=\"";
    var html := open + href + "\"" + tail;
    assert open <= html;
    var rest := html[|open|..];
    assert rest == href + "\"" + tail;
    IndexOfFirst(href, '"', tail);
    assert rest[..|href|] == href;
    assert rest[|href| + 1..] == tail;
  }

  /** The first occurrence of `c` is the one right after a prefix without it. */
  lemma {:induction false} IndexOfFirst(a: string, c: char, b: string)
    requires c !in a
    ensures IndexOf(a + [c] + b, c) == |a|
  {
    if a != [] {
      assert (a + [c] + b)[1..] == a[1..] + [c] + b;
      IndexOfFirst(a[1..], c, b);
    }
  }
}
