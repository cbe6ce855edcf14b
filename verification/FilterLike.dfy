/** `LIKE` matching, where a backslash escapes, and the escaper that makes a value literal. */
module FilterLike {
  import opened FilterFields

  /** `text LIKE pattern ESCAPE '\'`. */
  predicate Like(pattern: string, text: string)
    decreases |pattern| + |text|
  {
    if pattern == "" then text == ""
    else if pattern[0] == '%' then Like(pattern[1..], text) || (text != "" && Like(pattern, text[1..]))
    else if pattern[0] == '\\' then
      |pattern| > 1 && text != "" && pattern[1] == text[0] && Like(pattern[2..], text[1..])
    else text != "" && (pattern[0] == '_' || pattern[0] == text[0]) && Like(pattern[1..], text[1..])
  }

  /** Replaces every occurrence of one character. */
  function ReplaceAll(s: string, c: char, replacement: string): string {
    if s == "" then "" else (if s[0] == c then replacement else [s[0]]) + ReplaceAll(s[1..], c, replacement)
  }

  /** The three replaces, in the order the escaper runs them. */
  function EscapeLike(value: string): string {
    ReplaceAll(ReplaceAll(ReplaceAll(value, '\\', "\\\\"), '%', "\\%"), '_', "\\_")
  }

  /** One pass that puts a backslash in front of every metacharacter. */
  function EscapeEach(value: string): string {
    if value == "" then "" else (if IsMeta(value[0]) then ['\\', value[0]] else [value[0]]) + EscapeEach(value[1..])
  }

  lemma {:induction false} ReplaceAllConcat(a: string, b: string, c: char, replacement: string)
    ensures ReplaceAll(a + b, c, replacement) == ReplaceAll(a, c, replacement) + ReplaceAll(b, c, replacement)
  {
    if a == "" {
      assert a + b == b;
    } else {
      assert (a + b)[1..] == a[1..] + b;
      ReplaceAllConcat(a[1..], b, c, replacement);
    }
  }

  lemma ReplaceTwo(x: char, y: char, c: char, replacement: string)
    ensures ReplaceAll([x], c, replacement) == if x == c then replacement else [x]
    ensures ReplaceAll([x, y], c, replacement) == (if x == c then replacement else [x]) + (if y == c then replacement else [y])
  {
    assert [x, y][1..] == [y] && [y][1..] == "";
  }

  lemma EscapeOne(c: char)
    ensures EscapeLike([c]) == if IsMeta(c) then ['\\', c] else [c]
  {
    ReplaceTwo(c, c, '\\', "\\\\");
    var first := ReplaceAll([c], '\\', "\\\\");
    ReplaceTwo(c, c, '%', "\\%");
    ReplaceTwo('\\', '\\', '%', "\\%");
    var second := ReplaceAll(first, '%', "\\%");
    ReplaceTwo(c, c, '_', "\\_");
    ReplaceTwo('\\', '\\', '_', "\\_");
    ReplaceTwo('\\', '%', '_', "\\_");
  }

  /** Escaping the backslash first makes three global replaces the same as one pass. */
  lemma {:induction false} EscapeIsPerCharacter(s: string)
    ensures EscapeLike(s) == EscapeEach(s)
  {
    if s != "" {
      assert s == [s[0]] + s[1..];
      ReplaceAllConcat([s[0]], s[1..], '\\', "\\\\");
      ReplaceAllConcat(ReplaceAll([s[0]], '\\', "\\\\"), ReplaceAll(s[1..], '\\', "\\\\"), '%', "\\%");
      ReplaceAllConcat(ReplaceAll(ReplaceAll([s[0]], '\\', "\\\\"), '%', "\\%"),
                       ReplaceAll(ReplaceAll(s[1..], '\\', "\\\\"), '%', "\\%"), '_', "\\_");
      EscapeOne(s[0]);
      EscapeIsPerCharacter(s[1..]);
    }
  }

  ghost predicate IsSubstring(s: string, text: string) {
    exists i :: 0 <= i <= |text| && s <= text[i..]
  }

  /** An escaped value matches itself character by character and nothing else. */
  lemma {:induction false} EscapedMatchesLiterally(s: string, rest: string, text: string)
    ensures Like(EscapeEach(s) + rest, text) <==> s <= text && Like(rest, text[|s|..])
  {
    if s == "" {
      assert EscapeEach(s) + rest == rest;
    } else {
      var tail := EscapeEach(s[1..]) + rest;
      if IsMeta(s[0]) {
        assert (EscapeEach(s) + rest)[2..] == tail;
      } else {
        assert (EscapeEach(s) + rest)[1..] == tail;
      }
      if text != "" {
        EscapedMatchesLiterally(s[1..], rest, text[1..]);
        assert s <= text <==> s[0] == text[0] && s[1..] <= text[1..] by {
          assert s == [s[0]] + s[1..] && text == [text[0]] + text[1..];
        }
      }
    }
  }

  lemma {:induction false} PercentMatchesAnything(text: string)
    ensures Like("%", text)
  {
    assert "%"[1..] == "";
    if text != "" {
      PercentMatchesAnything(text[1..]);
    }
  }

  lemma {:induction false} AnywhereInText(s: string, pattern: string, text: string)
    requires pattern == "%" + (EscapeEach(s) + "%")
    ensures Like(pattern, text) <==> IsSubstring(s, text)
    decreases |text|
  {
    assert pattern[1..] == EscapeEach(s) + "%";
    EscapedMatchesLiterally(s, "%", text);
    if s <= text {
      PercentMatchesAnything(text[|s|..]);
      assert text[0..] == text;
    }
    if text != "" {
      AnywhereInText(s, pattern, text[1..]);
      if IsSubstring(s, text[1..]) {
        var i :| 0 <= i <= |text[1..]| && s <= text[1..][i..];
        assert text[1..][i..] == text[i + 1..];
      }
      if IsSubstring(s, text) && !(s <= text) {
        var i :| 0 <= i <= |text| && s <= text[i..];
        assert i > 0 && text[1..][i - 1..] == text[i..];
      }
    }
  }

  /** Searching for `%` + the escaped value + `%` finds exactly the texts containing the value. */
  lemma EscapingIsExact(s: string, text: string)
    ensures Like("%" + EscapeLike(s) + "%", text) <==> IsSubstring(s, text)
  {
    EscapeIsPerCharacter(s);
    var pattern := "%" + (EscapeEach(s) + "%");
    assert "%" + EscapeLike(s) + "%" == pattern;
    AnywhereInText(s, pattern, text);
  }
}
