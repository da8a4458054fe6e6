/**
  The endpoint list: the stored option `endpoint_text_field` is one string of
  post-type names separated by commas. Both the test-link section and the
  REST-support hook turn it into a list of names the same way: `explode(',', …)`
  splits it, keeping empty pieces, and `preg_replace('/\s+/', '', …)` deletes
  every whitespace character from each piece (not only at its ends).
 */
module EndpointList {

  /** The option value as the host's option storage returns it: `false` when
      the option was never saved, otherwise the saved text. */
  datatype StoredOption = NotSet | Stored(text: string)

  /** PHP's `empty()` on that value: `false`, the empty string and `"0"`. */
  predicate IsEmpty(opt: StoredOption)
    ensures IsEmpty(opt) ==> opt.NotSet? || |opt.text| <= 1
  {
    opt.NotSet? || opt.text == "" || opt.text == "0"
  }

  const Separator: char := ','

  /** The characters the regular-expression class `\s` matches outside
      Unicode mode: space, tab, line feed, vertical tab, form feed, return. */
  predicate IsWhitespace(c: char)
    ensures IsWhitespace(c) ==> c != Separator && c <= ' '
  {
    c == ' ' || c == '\t' || c == '\n' || c == '\U{0B}' || c == '\U{0C}' || c == '\r'
  }

  /** Number of occurrences of `c` in `s`. */
  function Count(s: string, c: char): nat {
    if s == [] then 0 else (if s[0] == c then 1 else 0) + Count(s[1..], c)
  }

  /** `explode(',', s)`: the pieces between separators, empty pieces included. */
  function Split(s: string): (pieces: seq<string>)
    ensures |pieces| >= 1
  {
    if s == [] then [""]
    else
      var rest := Split(s[1..]);
      if s[0] == Separator then [""] + rest
      else [[s[0]] + rest[0]] + rest[1..]
  }

  /** `implode(',', pieces)`: the inverse of Split. */
  function Join(pieces: seq<string>): string {
    if |pieces| == 0 then ""
    else if |pieces| == 1 then pieces[0]
    else pieces[0] + [Separator] + Join(pieces[1..])
  }

  /** `preg_replace('/\s+/', '', s)`: every whitespace character deleted, the
      other characters kept in order. */
  function StripWhitespace(s: string): (r: string)
    ensures forall c :: c in r ==> c in s && !IsWhitespace(c)
    ensures |r| <= |s|
  {
    if s == [] then []
    else if IsWhitespace(s[0]) then StripWhitespace(s[1..])
    else [s[0]] + StripWhitespace(s[1..])
  }

  /** `preg_replace` applied to an array of subjects: one result per piece. */
  function StripEach(pieces: seq<string>): (r: seq<string>)
    ensures |r| == |pieces|
    ensures forall k :: 0 <= k < |r| ==> r[k] == StripWhitespace(pieces[k])
  {
    if pieces == [] then [] else [StripWhitespace(pieces[0])] + StripEach(pieces[1..])
  }

  /** The names the plugin reads from the setting: one per comma-separated
      piece. */
  function Parse(s: string): (names: seq<string>)
    ensures |names| == Count(s, Separator) + 1
  {
    SplitCount(s);
    StripEach(Split(s))
  }

  // ---------------------------------------------------------------------------
  // Splitting

  /** `explode` yields one piece per comma plus one. */
  lemma {:induction false} SplitCount(s: string)
    ensures |Split(s)| == Count(s, Separator) + 1
  {
    if s != [] {
      SplitCount(s[1..]);
    }
  }

  /** No piece holds a comma. */
  lemma {:induction false} SplitPiecesClean(s: string)
    ensures forall k :: 0 <= k < |Split(s)| ==> Separator !in Split(s)[k]
  {
    if s != [] {
      SplitPiecesClean(s[1..]);
      var rest := Split(s[1..]);
      if s[0] != Separator {
        assert Separator !in [s[0]] + rest[0];
        assert forall k :: 1 <= k < |Split(s)| ==> Split(s)[k] == rest[k];
      }
    }
  }

  /** Joining the pieces with commas gives back the setting exactly. */
  lemma {:induction false} JoinSplit(s: string)
    ensures Join(Split(s)) == s
  {
    if s != [] {
      var rest := Split(s[1..]);
      JoinSplit(s[1..]);
      if s[0] == Separator {
        assert ([""] + rest)[1..] == rest;
      } else if |rest| > 1 {
        var first := [s[0]] + rest[0];
        assert ([first] + rest[1..])[1..] == rest[1..];
        assert Join(rest) == rest[0] + [Separator] + Join(rest[1..]);
      }
    }
  }

  /** A string without a comma is a single piece. */
  lemma {:induction false} SplitNoSeparator(s: string)
    requires Separator !in s
    ensures Split(s) == [s]
  {
    if s != [] {
      assert Separator !in s[1..] by { assert forall c :: c in s[1..] ==> c in s; }
      SplitNoSeparator(s[1..]);
      assert [s[0]] + s[1..] == s;
    }
  }

  /** A comma splits the setting into what is before it and what is after it. */
  lemma {:induction false} SplitConcat(a: string, b: string)
    ensures Split(a + [Separator] + b) == Split(a) + Split(b)
  {
    if a == [] {
      var s := a + [Separator] + b;
      assert s[0] == Separator && s[1..] == b;
    } else {
      SplitConcat(a[1..], b);
      assert a == [a[0]] + a[1..];
      assert a + [Separator] + b == [a[0]] + (a[1..] + [Separator] + b);
      SplitConcatStep(a[0], a[1..], b);
    }
  }

  /** The inductive step of SplitConcat: one more character in front. */
  lemma SplitConcatStep(c: char, tail: string, b: string)
    requires Split(tail + [Separator] + b) == Split(tail) + Split(b)
    ensures Split([c] + (tail + [Separator] + b)) == Split([c] + tail) + Split(b)
  {
    var rest := tail + [Separator] + b;
    var left, right := Split(tail), Split(b);
    assert ([c] + rest)[0] == c && ([c] + rest)[1..] == rest;
    assert ([c] + tail)[0] == c && ([c] + tail)[1..] == tail;
    if c == Separator {
      assert Split([c] + rest) == [""] + (left + right);
      assert Split([c] + tail) == [""] + left;
    } else {
      var first := [c] + left[0];
      assert (left + right)[0] == left[0];
      assert (left + right)[1..] == left[1..] + right;
      assert Split([c] + rest) == [first] + (left[1..] + right);
      assert Split([c] + tail) == [first] + left[1..];
    }
  }

  /** Split is the only way to cut a string into comma-free pieces that join
      back to it: splitting the join of such pieces returns them. */
  lemma {:induction false} SplitJoin(pieces: seq<string>)
    requires |pieces| >= 1
    requires forall k :: 0 <= k < |pieces| ==> Separator !in pieces[k]
    ensures Split(Join(pieces)) == pieces
  {
    SplitNoSeparator(pieces[0]);
    if |pieces| > 1 {
      SplitJoin(pieces[1..]);
      SplitConcat(pieces[0], Join(pieces[1..]));
      assert [pieces[0]] + pieces[1..] == pieces;
    }
  }

  // ---------------------------------------------------------------------------
  // Stripping

  /** Deleting whitespace works piece by piece. */
  lemma {:induction false} StripConcat(a: string, b: string)
    ensures StripWhitespace(a + b) == StripWhitespace(a) + StripWhitespace(b)
  {
    if a != [] {
      assert (a + b)[0] == a[0];
      assert (a + b)[1..] == a[1..] + b;
      StripConcat(a[1..], b);
      var tail := StripWhitespace(a[1..]) + StripWhitespace(b);
      assert StripWhitespace(a + b)
          == (if IsWhitespace(a[0]) then [] else [a[0]]) + tail;
      assert StripWhitespace(a)
          == (if IsWhitespace(a[0]) then [] else [a[0]]) + StripWhitespace(a[1..]);
      var head: string := if IsWhitespace(a[0]) then [] else [a[0]];
      assert head + tail == (head + StripWhitespace(a[1..])) + StripWhitespace(b);
    } else {
      assert a + b == b;
    }
  }

  /** A string without whitespace is left as it is. */
  lemma {:induction false} StripClean(s: string)
    requires forall c :: c in s ==> !IsWhitespace(c)
    ensures StripWhitespace(s) == s
  {
    if s != [] {
      assert forall c :: c in s[1..] ==> c in s;
      StripClean(s[1..]);
    }
  }

  /** Stripping the pieces and then joining is stripping the joined string,
      because the separator is not whitespace. */
  lemma {:induction false} JoinStripEach(pieces: seq<string>)
    ensures Join(StripEach(pieces)) == StripWhitespace(Join(pieces))
  {
    if |pieces| > 1 {
      JoinStripEach(pieces[1..]);
      var r := StripEach(pieces);
      assert r[1..] == StripEach(pieces[1..]);
      StripConcat(pieces[0] + [Separator], Join(pieces[1..]));
      StripConcat(pieces[0], [Separator]);
      assert StripWhitespace([Separator]) == [Separator] by {
        assert [Separator][1..] == [];
      }
    }
  }

  // ---------------------------------------------------------------------------
  // Parsing

  /** A setting without a comma is a single name. */
  lemma ParseSingle(s: string)
    requires Separator !in s
    ensures Parse(s) == [StripWhitespace(s)]
  {
    SplitNoSeparator(s);
    assert [s][1..] == [];
  }

  /** No name holds a comma or a whitespace character. */
  lemma ParseNamesClean(s: string)
    ensures forall k, c :: 0 <= k < |Parse(s)| && c in Parse(s)[k] ==> c != Separator && !IsWhitespace(c)
  {
    var pieces := Split(s);
    SplitPiecesClean(s);
    assert forall k, c :: 0 <= k < |pieces| && c in Parse(s)[k] ==> c in pieces[k];
  }

  /** Whitespace inside a piece is deleted too, not only at its ends: a piece
      `a b` gives the single name `ab` (with `a` and `b` stripped). */
  lemma InteriorWhitespaceRemoved(a: string, b: string)
    requires Separator !in a && Separator !in b
    ensures Parse(a + [' '] + b) == [StripWhitespace(a) + StripWhitespace(b)]
  {
    var space: string := [' '];
    ParseSingle(a + space + b);
    assert StripWhitespace(space) == [] by { assert space[1..] == []; }
    StripConcat(a + space, b);
    StripConcat(a, space);
    assert StripWhitespace(a + space) == StripWhitespace(a);
  }

  /** Round trip: the names joined with commas are the setting with all its
      whitespace deleted; in particular the names keep the pieces' order. */
  lemma ParseJoin(s: string)
    ensures Join(Parse(s)) == StripWhitespace(s)
  {
    JoinStripEach(Split(s));
    JoinSplit(s);
  }

  /** The names of two settings joined by a comma are the names of the first
      followed by the names of the second. */
  lemma {:induction false} ParseConcat(a: string, b: string)
    ensures Parse(a + [Separator] + b) == Parse(a) + Parse(b)
  {
    SplitConcat(a, b);
    StripEachConcat(Split(a), Split(b));
  }

  lemma {:induction false} StripEachConcat(p: seq<string>, q: seq<string>)
    ensures StripEach(p + q) == StripEach(p) + StripEach(q)
  {
    if p != [] {
      assert (p + q)[0] == p[0] && (p + q)[1..] == p[1..] + q;
      StripEachConcat(p[1..], q);
      var head := [StripWhitespace(p[0])];
      assert StripEach(p + q) == head + (StripEach(p[1..]) + StripEach(q));
      assert StripEach(p) == head + StripEach(p[1..]);
    } else {
      assert p + q == q;
    }
  }

  /** Stray commas are not dropped: a leading, a doubled and a trailing comma
      each give an empty name at that position. */
  lemma LeadingCommaKept(b: string)
    ensures Parse([Separator] + b) == [""] + Parse(b)
  {
    ParseConcat([], b);
    assert [] + [Separator] + b == [Separator] + b;
  }

  lemma DoubledCommaKept(a: string, b: string)
    ensures Parse(a + [Separator] + [Separator] + b) == Parse(a) + [""] + Parse(b)
  {
    ParseConcat(a + [Separator], b);
    TrailingCommaKept(a);
  }

  lemma TrailingCommaKept(a: string)
    ensures Parse(a + [Separator]) == Parse(a) + [""]
  {
    ParseConcat(a, []);
    assert a + [Separator] + [] == a + [Separator];
  }

  /** Parsing is stable: writing the names back as a setting and parsing that
      again gives the same names. */
  lemma ParseStable(s: string)
    ensures Parse(Join(Parse(s))) == Parse(s)
  {
    var names := Parse(s);
    ParseNamesClean(s);
    SplitJoin(names);
    forall k | 0 <= k < |names|
      ensures StripWhitespace(names[k]) == names[k]
    {
      StripClean(names[k]);
    }
  }

  /** A setting of blanks only is not PHP-empty, yet it parses to one empty
      name: the hook then looks up the empty name and the test section shows
      one link with no name. */
  lemma BlankSettingGivesEmptyName(s: string)
    requires s != []
    requires forall c :: c in s ==> IsWhitespace(c)
    ensures !IsEmpty(Stored(s))
    ensures Parse(s) == [""]
  {
    assert s[0] in s;
    assert Separator !in s;
    ParseSingle(s);
    BlankStripsToEmpty(s);
  }

  lemma {:induction false} BlankStripsToEmpty(s: string)
    requires forall c :: c in s ==> IsWhitespace(c)
    ensures StripWhitespace(s) == []
  {
    if s != [] {
      assert s[0] in s;
      assert forall c :: c in s[1..] ==> c in s;
      BlankStripsToEmpty(s[1..]);
    }
  }
}
