/** The pieces of Ruby's core String behaviour that the S3 helper relies on:
    `String#split` with the one-character separator "/", and `String#downcase`
    as far as comparing against an ASCII word needs it. */
module RubyText {

  const Slash: char := '/'

  /** Joins fields with a slash between each two neighbours (the inverse of Fields). */
  function Join(fs: seq<string>): string
  {
    if |fs| == 0 then ""
    else if |fs| == 1 then fs[0]
    else Join(fs[..|fs| - 1]) + [Slash] + fs[|fs| - 1]
  }

  /** Every slash-separated field of `s`, empty ones included: the text
      between two neighbouring slashes, before the first and after the last.
      This is `split` before Ruby drops the trailing empty fields. */
  function Fields(s: string): (fs: seq<string>)
    ensures |fs| >= 1
  {
    if s == [] then [[]]
    else
      var init := Fields(s[..|s| - 1]);
      var c := s[|s| - 1];
      if c == Slash then init + [[]]
      else init[..|init| - 1] + [init[|init| - 1] + [c]]
  }

  /** No field holds a slash. */
  lemma {:induction false} FieldsHaveNoSlash(s: string)
    ensures forall i | 0 <= i < |Fields(s)| :: Slash !in Fields(s)[i]
  {
    if s != [] {
      FieldsHaveNoSlash(s[..|s| - 1]);
    }
  }

  /** Join of one more, empty, field adds a slash. */
  lemma {:induction false} JoinAppendEmpty(fs: seq<string>)
    requires |fs| >= 1
    ensures Join(fs + [[]]) == Join(fs) + [Slash]
  {
  }

  /** Join of fields whose last one grew by `c` grows by `c`. */
  lemma {:induction false} JoinExtendLast(fs: seq<string>, c: char)
    requires |fs| >= 1
    ensures Join(fs[..|fs| - 1] + [fs[|fs| - 1] + [c]]) == Join(fs) + [c]
  {
  }

  /** Joining the fields gives back `s`: nothing is lost by the split. */
  lemma {:induction false} JoinFields(s: string)
    ensures Join(Fields(s)) == s
  {
    if s != [] {
      var init := s[..|s| - 1];
      var c := s[|s| - 1];
      JoinFields(init);
      assert s == init + [c];
      if c == Slash {
        JoinAppendEmpty(Fields(init));
      } else {
        JoinExtendLast(Fields(init), c);
      }
    }
  }

  /** Drops the empty fields at the end, as `split` does when no limit is given. */
  function DropTrailingEmpty(fs: seq<string>): (r: seq<string>)
    ensures |r| <= |fs| && r == fs[..|r|]
    ensures r == [] || r[|r| - 1] != []
    ensures forall i | |r| <= i < |fs| :: fs[i] == []
  {
    if fs == [] || fs[|fs| - 1] != [] then fs
    else DropTrailingEmpty(fs[..|fs| - 1])
  }

  /** Ruby's `s.split("/")`. */
  function SplitOnSlash(s: string): seq<string>
  {
    DropTrailingEmpty(Fields(s))
  }

  /** A slash at the end of `s` does not change its split. */
  lemma {:induction false} SplitIgnoresTrailingSlash(s: string)
    requires s != [] && s[|s| - 1] == Slash
    ensures SplitOnSlash(s) == SplitOnSlash(s[..|s| - 1])
  {
  }

  /** When `s` ends in something other than a slash, split drops nothing. */
  lemma {:induction false} SplitKeepsAllFields(s: string)
    requires s != [] && s[|s| - 1] != Slash
    ensures SplitOnSlash(s) == Fields(s)
  {
  }

  /** `s` without the run of slashes at its end. */
  function TrimTrailingSlashes(s: string): (t: string)
    ensures |t| <= |s| && t == s[..|t|]
    ensures t == [] || t[|t| - 1] != Slash
    ensures forall i | |t| <= i < |s| :: s[i] == Slash
  {
    if s == [] || s[|s| - 1] != Slash then s
    else TrimTrailingSlashes(s[..|s| - 1])
  }

  /** The text after the last slash of `t`, or all of `t` when it has none. */
  function AfterLastSlash(t: string): (b: string)
    ensures |b| <= |t| && b == t[|t| - |b|..]
    ensures Slash !in b
    ensures |b| == |t| || t[|t| - |b| - 1] == Slash
  {
    if t == [] || t[|t| - 1] == Slash then []
    else
      var b := AfterLastSlash(t[..|t| - 1]) + [t[|t| - 1]];
      assert b == t[|t| - |b|..];
      b
  }

  /** The last field of `s` is the text after its last slash. */
  lemma {:induction false} LastFieldIsAfterLastSlash(s: string)
    ensures Fields(s)[|Fields(s)| - 1] == AfterLastSlash(s)
  {
    if s != [] && s[|s| - 1] != Slash {
      LastFieldIsAfterLastSlash(s[..|s| - 1]);
    }
  }

  /** A slash at the end opens one more, empty, field. */
  lemma {:induction false} FieldsAppendSlash(s: string)
    ensures Fields(s + [Slash]) == Fields(s) + [[]]
  {
  }

  /** Appending `t` is appending all but its last character, then that one. */
  lemma {:induction false} AppendSplitsLast(s: string, t: string)
    requires t != []
    ensures s + t == s + t[..|t| - 1] + [t[|t| - 1]]
  {
  }

  /** One more character other than a slash keeps the shape that
      FieldsAppendPlain describes. */
  lemma {:induction false} FieldsExtendLast(s: string, u: string, c: char)
    requires c != Slash
    requires var fs := Fields(s);
      Fields(s + u) == fs[..|fs| - 1] + [fs[|fs| - 1] + u]
    ensures var fs := Fields(s);
      Fields(s + u + [c]) == fs[..|fs| - 1] + [fs[|fs| - 1] + u + [c]]
  {
  }

  /** Splitting by Fields after a slash-free suffix only extends the last field. */
  lemma {:induction false} FieldsAppendPlain(s: string, t: string)
    requires forall i | 0 <= i < |t| :: t[i] != Slash
    ensures var fs := Fields(s);
      Fields(s + t) == fs[..|fs| - 1] + [fs[|fs| - 1] + t]
    decreases |t|
  {
    var fs := Fields(s);
    if t == [] {
      assert s + t == s;
      assert fs[|fs| - 1] + t == fs[|fs| - 1];
      assert fs[..|fs| - 1] + [fs[|fs| - 1]] == fs;
    } else {
      var u, c := t[..|t| - 1], t[|t| - 1];
      FieldsAppendPlain(s, u);
      FieldsExtendLast(s, u, c);
      AppendSplitsLast(s, t);
      AppendSplitsLast(fs[|fs| - 1], t);
    }
  }

  /** Fields undoes Join whenever no field holds a slash: the two are inverse. */
  lemma {:induction false} FieldsOfJoin(fs: seq<string>)
    requires |fs| >= 1
    requires forall i | 0 <= i < |fs| :: Slash !in fs[i]
    ensures Fields(Join(fs)) == fs
  {
    var last := fs[|fs| - 1];
    assert forall i | 0 <= i < |last| :: last[i] != Slash by {
      assert Slash !in last;
    }
    if |fs| == 1 {
      FieldsAppendPlain([], last);
      assert [] + last == last;
      assert Fields([]) == [[]];
    } else {
      var init := fs[..|fs| - 1];
      var a := Join(init) + [Slash];
      assert Fields(a) == init + [[]] by {
        FieldsOfJoin(init);
        FieldsAppendSlash(Join(init));
      }
      assert Fields(a + last) == init + [last] by {
        FieldsAppendPlain(a, last);
        var fa := Fields(a);
        assert fa[..|fa| - 1] == init;
        assert fa[|fa| - 1] + last == last;
      }
      assert Join(fs) == a + last;
      assert init + [last] == fs;
    }
  }

  /** `c.downcase` for one character: ASCII upper-case letters are lowered. */
  function LowerChar(c: char): char
  {
    if 'A' <= c <= 'Z' then (c as int - 'A' as int + 'a' as int) as char else c
  }

  /** `s.downcase`, lowering ASCII letters only. */
  function Downcase(s: string): string
  {
    seq(|s|, i requires 0 <= i < |s| => LowerChar(s[i]))
  }

  /** A word of lower-case ASCII letters is what Downcase makes of `s`
      exactly when `s` spells that word letter by letter, each letter in
      either case (an upper-case ASCII letter sits 32 code points below its
      lower-case one). */
  lemma DowncaseEqualsLowerWord(s: string, w: string)
    requires forall i | 0 <= i < |w| :: 'a' <= w[i] <= 'z'
    ensures Downcase(s) == w <==>
      && |s| == |w|
      && (forall i | 0 <= i < |s| :: s[i] == w[i] || s[i] as int == w[i] as int - 32)
  {
    if |s| == |w| {
      forall i | 0 <= i < |s|
        ensures LowerChar(s[i]) == w[i] <==> (s[i] == w[i] || s[i] as int == w[i] as int - 32)
      {
      }
      if forall i | 0 <= i < |s| :: s[i] == w[i] || s[i] as int == w[i] as int - 32 {
        assert forall i | 0 <= i < |s| :: Downcase(s)[i] == w[i];
      }
    }
  }
}
