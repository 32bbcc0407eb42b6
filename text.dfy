/** The few Python string and path operations the scraper relies on,
    written out over `seq<char>`: `str.lstrip`/`rstrip`/`strip` with one
    character, `str.split(c)[0]` and `str.split(c)[-1]`, ASCII `str.lower`,
    `str.endswith` and `posixpath.join` of two components. */
module Text {

  datatype Option<T> = None | Some(value: T)

  /** `s.lstrip(c)`: drops every leading `c`. */
  function TrimStart(s: string, c: char): (r: string)
    ensures |r| <= |s| && r == s[|s| - |r|..]
    ensures r == [] || r[0] != c
    ensures forall i :: 0 <= i < |s| - |r| ==> s[i] == c
  {
    if s != [] && s[0] == c then TrimStart(s[1..], c) else s
  }

  /** `s.rstrip(c)`: drops every trailing `c`. */
  function TrimEnd(s: string, c: char): (r: string)
    ensures |r| <= |s| && r == s[..|r|]
    ensures r == [] || r[|r| - 1] != c
    ensures forall i :: |r| <= i < |s| ==> s[i] == c
  {
    if s != [] && s[|s| - 1] == c then TrimEnd(s[..|s| - 1], c) else s
  }

  /** `s.strip(c)`: drops every leading and every trailing `c`. */
  function Strip(s: string, c: char): string
  {
    TrimEnd(TrimStart(s, c), c)
  }

  /** `s.split(c)[-1]`: the text after the last `c` (all of `s` when it has none). */
  function AfterLast(s: string, c: char): (r: string)
    ensures |r| <= |s| && r == s[|s| - |r|..]
    ensures c !in r
    ensures |r| == |s| || s[|s| - |r| - 1] == c
  {
    if s == [] || s[|s| - 1] == c then [] else AfterLast(s[..|s| - 1], c) + [s[|s| - 1]]
  }

  /** `s.split(c)[0]`: the text before the first `c` (all of `s` when it has none). */
  function BeforeFirst(s: string, c: char): (r: string)
    ensures |r| <= |s| && r == s[..|r|]
    ensures c !in r
    ensures |r| == |s| || s[|r|] == c
  {
    if s == [] || s[0] == c then [] else [s[0]] + BeforeFirst(s[1..], c)
  }

  /** `str.lower` on one character; only ASCII letters are folded. */
  function LowerChar(ch: char): char
  {
    if 'A' <= ch <= 'Z' then (ch as int - 'A' as int + 'a' as int) as char else ch
  }

  /** `s.lower()`, character by character. */
  function Lower(s: string): (r: string)
    ensures |r| == |s| && forall i :: 0 <= i < |s| ==> r[i] == LowerChar(s[i])
  {
    if s == [] then [] else [LowerChar(s[0])] + Lower(s[1..])
  }

  predicate EndsWith(s: string, suffix: string)
  {
    |suffix| <= |s| && s[|s| - |suffix|..] == suffix
  }

  /** `posixpath.join(dir, name)` for one relative or absolute component:
      an absolute `name` replaces `dir`, otherwise a `/` is inserted unless
      `dir` is empty or already ends in one. */
  function Join(dir: string, name: string): (r: string)
    ensures name != [] && name[0] == '/' ==> r == name
    ensures (name == [] || name[0] != '/') ==> |dir| <= |r| && r[..|dir|] == dir && EndsWith(r, name)
    ensures (name == [] || name[0] != '/') && dir != [] && dir[|dir| - 1] != '/' ==>
              r == dir + "/" + name
    ensures (name == [] || name[0] != '/') && (dir == [] || dir[|dir| - 1] == '/') ==> r == dir + name
  {
    if name != [] && name[0] == '/' then name
    else if dir == [] || dir[|dir| - 1] == '/' then dir + name
    else dir + "/" + name
  }

  /** Stripping a character a string does not start or end with changes nothing. */
  lemma StripUntouched(s: string, c: char)
    requires s == [] || (s[0] != c && s[|s| - 1] != c)
    ensures Strip(s, c) == s
  {
  }

  lemma TrimEndExtra(s: string, c: char)
    ensures TrimEnd(s + [c], c) == TrimEnd(s, c)
  {
    assert (s + [c])[..|s|] == s;
  }

  /** A leading `c` is dropped by `lstrip(c)`. */
  lemma TrimStartCons(c: char, t: string)
    ensures TrimStart([c] + t, c) == TrimStart(t, c)
  {
    assert ([c] + t)[1..] == t;
  }

  lemma {:induction false} TrimStartExtra(s: string, c: char)
    ensures (TrimStart(s, c) == [] && TrimStart(s + [c], c) == [])
         || TrimStart(s + [c], c) == TrimStart(s, c) + [c]
  {
    if s == [] {
      TrimStartCons(c, []);
      assert [c] + [] == s + [c];
    } else if s[0] == c {
      var t := s[1..];
      assert s == [c] + t && s + [c] == [c] + (t + [c]);
      TrimStartCons(c, t);
      TrimStartCons(c, t + [c]);
      TrimStartExtra(t, c);
    } else {
      assert (s + [c])[0] == s[0];
    }
  }

  /** One more trailing `c` does not change what `strip` keeps. */
  lemma StripExtraTrailing(s: string, c: char)
    ensures Strip(s + [c], c) == Strip(s, c)
  {
    TrimStartExtra(s, c);
    if TrimStart(s + [c], c) != [] {
      TrimEndExtra(TrimStart(s, c), c);
    }
  }

  /** `strip` yields the empty string exactly when every character is `c`. */
  lemma {:induction false} StripEmpty(s: string, c: char)
    ensures Strip(s, c) == [] <==> forall i :: 0 <= i < |s| ==> s[i] == c
  {
    var t := TrimStart(s, c);
    if t != [] {
      assert TrimEnd(t, c) != [];
      assert s[|s| - |t|] == t[0];
    }
  }

  /** `split(c)[-1]` of text whose last separator precedes `tail` is `tail`. */
  lemma {:induction false} AfterLastOfTail(head: string, c: char, tail: string)
    requires c !in tail
    ensures AfterLast(head + [c] + tail, c) == tail
  {
    if tail != [] {
      var init := tail[..|tail| - 1];
      assert head + [c] + tail == (head + [c] + init) + [tail[|tail| - 1]];
      AfterLastOfTail(head, c, init);
      assert init + [tail[|tail| - 1]] == tail;
    }
  }

  /** Text that does not end in the separator has a non-empty last part. */
  lemma AfterLastNonEmpty(s: string, c: char)
    requires s != [] && s[|s| - 1] != c
    ensures AfterLast(s, c) != []
  {
    assert AfterLast(s, c) == AfterLast(s[..|s| - 1], c) + [s[|s| - 1]];
  }

  /** Without a separator, `split(c)[-1]` is the whole text. */
  lemma {:induction false} AfterLastWithout(s: string, c: char)
    requires c !in s
    ensures AfterLast(s, c) == s
  {
    if s != [] {
      AfterLastWithout(s[..|s| - 1], c);
    }
  }

  /** `split(c)[0]` of text whose first separator follows `head` is `head`. */
  lemma {:induction false} BeforeFirstOfHead(head: string, c: char, tail: string)
    requires c !in head
    ensures BeforeFirst(head + [c] + tail, c) == head
  {
    if head != [] {
      assert (head + [c] + tail)[1..] == head[1..] + [c] + tail;
      BeforeFirstOfHead(head[1..], c, tail);
    }
  }

  lemma LowerAppend(a: string, b: string)
    ensures Lower(a + b) == Lower(a) + Lower(b)
  {
  }

  /** Text put in front keeps a suffix. */
  lemma EndsWithAfterPrefix(prefix: string, s: string, suffix: string)
    requires EndsWith(s, suffix)
    ensures EndsWith(prefix + s, suffix)
  {
    assert (prefix + s)[|prefix + s| - |suffix|..] == s[|s| - |suffix|..];
  }

  /** Text put in front keeps the lower-case form's suffix. */
  lemma LowerEndsWithAfterPrefix(prefix: string, s: string, suffix: string)
    requires EndsWith(Lower(s), suffix)
    ensures EndsWith(Lower(prefix + s), suffix)
  {
    LowerAppend(prefix, s);
    EndsWithAfterPrefix(Lower(prefix), Lower(s), suffix);
  }

  /** Appending ".pdf" always yields a name whose lower-case form ends in ".pdf". */
  lemma EndsWithPdfAfterAppend(s: string)
    ensures EndsWith(Lower(s + ".pdf"), ".pdf")
  {
    LowerAppend(s, ".pdf");
    assert Lower(".pdf") == ".pdf";
    assert Lower(s + ".pdf")[|s|..] == ".pdf";
  }
}
