/** `_parse_subtitles`, identical in both YouTube plugins: the downloaded
    subtitle file is split into lines; each line is stripped; cue timings
    (lines holding `-->`), blank lines, the `WEBVTT` header and cue numbers are
    skipped; inline `<...>` tags and `hh:mm:ss.mmm` stamps are removed from
    the rest; lines left empty are dropped; the survivors are joined with
    single spaces. */
module Subtitles {
  import opened PyText

  const TimingArrow := "-->"
  const Header := "WEBVTT"

  /** The lines skipped before any cleaning. */
  predicate Skipped(line: string) {
    Contains(line, TimingArrow) || line == "" || StartsWith(line, Header) || IsDigits(line)
  }

  /** The replacement `re.sub` is given: nothing. */
  function Erase(body: string): string { "" }

  /** No `<` in `s` starts a match of `<[^>]+>`: after each `<`, either no
      `>` follows at all or the very next character is `>`. */
  predicate TagFree(s: string) {
    forall i :: 0 <= i < |s| && s[i] == '<' ==> '>' !in s[i + 1..] || (i + 1 < |s| && s[i + 1] == '>')
  }

  /** `re.sub(r'<[^>]+>', '', s)` */
  function StripTags(s: string): (r: string)
    ensures forall c :: c in r ==> c in s
    ensures TagFree(r)
  {
    ErasedChars(s, "<", '>');
    ErasedTagFree(s);
    SubDelimited(s, "<", '>', Erase)
  }

  /** Erasing delimited matches only removes characters. */
  lemma {:induction false} ErasedChars(s: string, open: string, close: char)
    ensures forall c :: c in SubDelimited(s, open, close, Erase) ==> c in s
    decreases |s|
  {
    if |s| > 0 {
      match MatchAt(s, open, close)
      case Some(j) =>
        ErasedChars(s[j + 1..], open, close);
        assert forall c :: c in s[j + 1..] ==> c in s;
      case None =>
        ErasedChars(s[1..], open, close);
        assert forall c :: c in s[1..] ==> c in s;
    }
  }

  /** A text that does not start with `<` keeps its first character. */
  lemma KeepsFirst(s: string)
    requires |s| > 0 && s[0] != '<'
    ensures |SubDelimited(s, "<", '>', Erase)| > 0
    ensures SubDelimited(s, "<", '>', Erase)[0] == s[0]
  {
    assert !StartsWith(s, "<");
  }

  lemma {:induction false} ErasedTagFree(s: string)
    ensures TagFree(SubDelimited(s, "<", '>', Erase))
    decreases |s|
  {
    if |s| > 0 {
      match MatchAt(s, "<", '>')
      case Some(j) =>
        ErasedTagFree(s[j + 1..]);
        SubDelimitedAtMatch(s, "<", '>', Erase, j);
      case None =>
        ErasedTagFree(s[1..]);
        SubDelimitedNoMatch(s, "<", '>', Erase);
        if s[0] == '<' {
          LoneOpener(s);
        }
        TagFreeCons(s[0], SubDelimited(s[1..], "<", '>', Erase));
    }
  }

  /** A `<` that starts no match leaves after it either no `>` at all or a
      `>` right away. */
  lemma LoneOpener(s: string)
    requires |s| > 0 && s[0] == '<' && MatchAt(s, "<", '>').None?
    ensures var rest := SubDelimited(s[1..], "<", '>', Erase);
      '>' !in rest || (|rest| > 0 && rest[0] == '>')
  {
    MatchAtFacts(s, "<", '>');
    assert StartsWith(s, "<");
    if '>' in s[1..] {
      assert s[1] == '>';
      KeepsFirst(s[1..]);
    } else {
      ErasedChars(s[1..], "<", '>');
    }
  }

  /** Putting a character in front of a tag-free text keeps it tag-free
      unless the character is a `<` that would open a tag. */
  lemma TagFreeCons(c: char, rest: string)
    requires TagFree(rest)
    requires c == '<' ==> '>' !in rest || (|rest| > 0 && rest[0] == '>')
    ensures TagFree([c] + rest)
  {
    var r := [c] + rest;
    forall i | 0 <= i < |r| && r[i] == '<'
      ensures '>' !in r[i + 1..] || (i + 1 < |r| && r[i + 1] == '>')
    {
      if i > 0 {
        assert r[i] == rest[i - 1] && r[i + 1..] == rest[i..];
      } else {
        assert r[1..] == rest;
      }
    }
  }

  /** Erasing tags from a tag-free text changes nothing, so tag removal is
      idempotent. */
  lemma {:induction false} TagFreeUnchanged(s: string)
    requires TagFree(s)
    ensures StripTags(s) == s
    decreases |s|
  {
    if |s| > 0 {
      assert MatchAt(s, "<", '>').None? by {
        if s[0] == '<' && '>' in s[1..] {
          assert s[1] == '>';
        }
      }
      assert TagFree(s[1..]) by {
        forall i | 0 <= i < |s[1..]| && s[1..][i] == '<'
          ensures '>' !in s[1..][i + 1..] || (i + 1 < |s[1..]| && s[1..][i + 1] == '>')
        {
          assert s[1..][i + 1..] == s[i + 2..];
        }
      }
      TagFreeUnchanged(s[1..]);
    }
  }

  lemma StripTagsIdempotent(s: string)
    ensures StripTags(StripTags(s)) == StripTags(s)
  {
    TagFreeUnchanged(StripTags(s));
  }

  /** A `\d{2}:\d{2}:\d{2}\.\d{3}` stamp starts at index `i`. */
  predicate StampAt(s: string, i: nat) {
    && i + 12 <= |s|
    && IsAsciiDigit(s[i]) && IsAsciiDigit(s[i + 1]) && s[i + 2] == ':'
    && IsAsciiDigit(s[i + 3]) && IsAsciiDigit(s[i + 4]) && s[i + 5] == ':'
    && IsAsciiDigit(s[i + 6]) && IsAsciiDigit(s[i + 7]) && s[i + 8] == '.'
    && IsAsciiDigit(s[i + 9]) && IsAsciiDigit(s[i + 10]) && IsAsciiDigit(s[i + 11])
  }

  const StampLength := 12

  /** `re.sub(r'\d{2}:\d{2}:\d{2}\.\d{3}', '', s)`: one left-to-right pass. */
  function StripStamps(s: string): (r: string)
    ensures |r| <= |s|
    ensures forall c :: c in r ==> c in s
    ensures |s| > 0 && !StampAt(s, 0) ==> |r| > 0 && r[0] == s[0]
    decreases |s|
  {
    if |s| == 0 then ""
    else if StampAt(s, 0) then
      var r := StripStamps(s[StampLength..]);
      assert forall c :: c in s[StampLength..] ==> c in s;
      r
    else
      var r := [s[0]] + StripStamps(s[1..]);
      assert forall c :: c in s[1..] ==> c in s;
      r
  }

  /** A text without stamps passes through unchanged. */
  lemma {:induction false} NoStampUnchanged(s: string)
    requires forall i :: 0 <= i < |s| ==> !StampAt(s, i)
    ensures StripStamps(s) == s
    decreases |s|
  {
    if |s| > 0 {
      assert forall i :: 0 <= i < |s| - 1 ==> StampAt(s[1..], i) == StampAt(s, i + 1);
      NoStampUnchanged(s[1..]);
    }
  }

  /** Removing stamps can join the pieces around one stamp into a new stamp,
      which the single pass leaves in place: a stamp wrapped in the first
      digit and the rest of another stamp comes out as that other stamp. */
  lemma {:induction false} StampRemovalIsOnePass(inner: string, outer: string)
    requires |inner| == StampLength && StampAt(inner, 0)
    requires |outer| == StampLength && StampAt(outer, 0)
    ensures StripStamps([outer[0]] + inner + outer[1..]) == outer
  {
    var s := [outer[0]] + inner + outer[1..];
    assert s[2] == inner[1];
    assert s[1..] == inner + outer[1..];
    assert (inner + outer[1..])[StampLength..] == outer[1..];
    NoStampUnchanged(outer[1..]);
    assert StripStamps(s[1..]) == outer[1..];
    assert StripStamps(s) == [s[0]] + StripStamps(s[1..]);
  }

  /** Every suffix of a tag-free text is tag-free. */
  lemma TagFreeSuffix(s: string, d: nat)
    requires TagFree(s) && d <= |s|
    ensures TagFree(s[d..])
  {
    var tail := s[d..];
    forall i | 0 <= i < |tail| && tail[i] == '<'
      ensures '>' !in tail[i + 1..] || (i + 1 < |tail| && tail[i + 1] == '>')
    {
      assert tail[i] == s[i + d];
      assert tail[i + 1..] == s[i + d + 1..];
    }
  }

  /** Removing stamps keeps a tag-free text tag-free: stamps hold neither `<`
      nor `>`. */
  lemma {:induction false} StripStampsTagFree(s: string)
    requires TagFree(s)
    ensures TagFree(StripStamps(s))
    decreases |s|
  {
    if |s| > 0 {
      if StampAt(s, 0) {
        TagFreeSuffix(s, StampLength);
        StripStampsTagFree(s[StampLength..]);
      } else {
        TagFreeSuffix(s, 1);
        StripStampsTagFree(s[1..]);
        var rest := StripStamps(s[1..]);
        assert StripStamps(s) == [s[0]] + rest;
        if s[0] == '<' && '>' in s[1..] {
          assert s[1] == '>';
          assert !StampAt(s[1..], 0);
        }
        TagFreeCons(s[0], rest);
      }
    }
  }

  /** One raw subtitle line after the filter and the cleaning: None when it is
      skipped or ends up empty. */
  function CleanLine(raw: string): (r: Option<string>)
    ensures Skipped(Strip(raw)) ==> r.None?
    ensures !Skipped(Strip(raw)) ==> (r.Some? <==> StripStamps(StripTags(Strip(raw))) != "")
    ensures r.Some? ==> r.value == StripStamps(StripTags(Strip(raw)))
    ensures r.Some? ==> r.value != "" && TagFree(r.value)
    ensures r.Some? ==> forall c :: c in r.value ==> c in raw
  {
    var line := Strip(raw);
    if Skipped(line) then None
    else
      var cleaned := StripStamps(StripTags(line));
      StripStampsTagFree(StripTags(line));
      StripChars(raw);
      if cleaned == "" then None else Some(cleaned)
  }

  /** Stripping only removes characters. */
  lemma StripChars(raw: string)
    ensures forall c :: c in Strip(raw) ==> c in raw
  {
    var line := Strip(raw);
    StripOccurs(raw);
    var k :| 0 <= k <= |raw| - |line| && OccursAt(raw, line, k);
    assert line == raw[k..k + |line|];
    assert forall i :: 0 <= i < |line| ==> line[i] == raw[k + i];
  }

  /** A line of plain text, neither skipped nor holding a tag opener or a
      stamp, survives as its stripped self. */
  lemma PlainLineSurvives(raw: string)
    requires !Skipped(Strip(raw))
    requires '<' !in Strip(raw)
    requires forall i :: 0 <= i < |Strip(raw)| ==> !StampAt(Strip(raw), i)
    ensures CleanLine(raw) == Some(Strip(raw))
  {
    var line := Strip(raw);
    SubDelimitedNoOpen(line, "<", '>', Erase);
    NoStampUnchanged(line);
  }

  /** The surviving lines, cleaned, in input order. */
  function KeptLines(lines: seq<string>): (r: seq<string>)
    ensures |r| <= |lines|
    ensures forall k :: 0 <= k < |r| ==> r[k] != "" && TagFree(r[k])
  {
    if |lines| == 0 then []
    else
      var rest := KeptLines(lines[1..]);
      match CleanLine(lines[0])
      case Some(t) =>
        ConsClean(t, rest);
        [t] + rest
      case None => rest
  }

  /** Adding a clean line in front keeps every line clean. */
  lemma ConsClean(t: string, rest: seq<string>)
    requires t != "" && TagFree(t)
    requires forall k :: 0 <= k < |rest| ==> rest[k] != "" && TagFree(rest[k])
    ensures forall k :: 0 <= k < |[t] + rest| ==> ([t] + rest)[k] != "" && TagFree(([t] + rest)[k])
  {
    var r := [t] + rest;
    forall k | 0 <= k < |r| ensures r[k] != "" && TagFree(r[k]) {
      if k > 0 {
        assert r[k] == rest[k - 1];
      }
    }
  }

  /** Cleaning adds no character, so no kept line holds a character that no
      input line holds. */
  lemma {:induction false} KeptLinesLack(lines: seq<string>, c: char)
    requires forall i :: 0 <= i < |lines| ==> c !in lines[i]
    ensures forall k :: 0 <= k < |KeptLines(lines)| ==> c !in KeptLines(lines)[k]
  {
    if |lines| > 0 {
      var rest := KeptLines(lines[1..]);
      KeptLinesLack(lines[1..], c);
      match CleanLine(lines[0])
      case Some(t) =>
        var r := KeptLines(lines);
        assert r == [t] + rest;
        forall k | 0 <= k < |r| ensures c !in r[k] {
          if k > 0 {
            assert r[k] == rest[k - 1];
          }
        }
      case None =>
    }
  }

  /** Filtering commutes with concatenation: survivors keep input order. */
  lemma {:induction false} KeptLinesAppend(a: seq<string>, b: seq<string>)
    ensures KeptLines(a + b) == KeptLines(a) + KeptLines(b)
  {
    if |a| == 0 {
      assert a + b == b;
    } else {
      assert (a + b)[0] == a[0];
      assert (a + b)[1..] == a[1..] + b;
      KeptLinesAppend(a[1..], b);
    }
  }

  /** One line is kept exactly when it cleans to some text, and then as that
      text. With `KeptLinesAppend` this fixes the filter on every input. */
  lemma KeptLinesOne(line: string)
    ensures KeptLines([line]) == (if CleanLine(line).Some? then [CleanLine(line).value] else [])
  {
    assert [line][1..] == [];
  }

  /** Nothing survives exactly when every line is dropped by the cleaning. */
  lemma {:induction false} KeptLinesEmpty(lines: seq<string>)
    ensures KeptLines(lines) == [] <==> forall i :: 0 <= i < |lines| ==> CleanLine(lines[i]).None?
  {
    if |lines| > 0 {
      KeptLinesEmpty(lines[1..]);
      assert forall i :: 1 <= i < |lines| ==> lines[i] == lines[1..][i - 1];
    }
  }

  /** `_parse_subtitles` */
  function ParseSubtitles(content: string): (r: string)
    ensures '\n' !in r
  {
    var kept := KeptLines(Split(content, '\n'));
    KeptLinesLack(Split(content, '\n'), '\n');
    JoinNoChar(kept, " ", '\n');
    Join(kept, " ")
  }

  /** A join of pieces and a separator that all lack `c` lacks `c`. */
  lemma {:induction false} JoinNoChar(xs: seq<string>, sep: string, c: char)
    requires c !in sep
    requires forall k :: 0 <= k < |xs| ==> c !in xs[k]
    ensures c !in Join(xs, sep)
  {
    if |xs| > 1 {
      JoinNoChar(xs[1..], sep, c);
      assert Join(xs, sep) == xs[0] + sep + Join(xs[1..], sep);
    }
  }

  /** A file of one line parses to that line cleaned, or to "" when the
      cleaning drops it. */
  lemma ParseOneLine(line: string)
    requires '\n' !in line
    ensures ParseSubtitles(line) == (match CleanLine(line) case Some(t) => t case None => "")
  {
    assert Join([line], "\n") == line;
    ParseLines([line]);
    KeptLinesOne(line);
  }

  /** On a file given as its lines, the result is the cleaned surviving lines
      joined with single spaces, in file order. */
  lemma ParseLines(lines: seq<string>)
    requires |lines| >= 1
    requires forall i :: 0 <= i < |lines| ==> '\n' !in lines[i]
    ensures ParseSubtitles(Join(lines, "\n")) == Join(KeptLines(lines), " ")
  {
    SplitJoin(lines, '\n');
  }
}
