/**
 * The bracket-repeat decompressor of Challenge-2/DecompressAlgo.cpp.
 *
 * `Expand` and `ExpandGroup` are a recursive-descent reference definition of
 * what a compressed string means; the method `Decompress` is the single-pass
 * loop of the original, proved to agree with that definition.
 */
module Decompression {
  import opened Wrappers

  predicate IsDigit(c: char) { '0' <= c <= '9' }

  /** The characters with a meaning of their own in compressed text, which are exactly those a backslash may escape. */
  predicate IsEscapable(c: char) { c == '\\' || c == '[' || c == ']' }

  /** Text made only of characters that stand for themselves. */
  predicate IsPlain(s: string) { forall i :: 0 <= i < |s| ==> !IsEscapable(s[i]) }

  function DigitValue(c: char): (n: nat)
    requires IsDigit(c)
    ensures n <= 9
  {
    c as int - '0' as int
  }

  /** `s` written `n` times in a row. */
  function Repeat(s: string, n: nat): (r: string)
    ensures |r| == n * |s|
  {
    if n == 0 then [] else Repeat(s, n - 1) + s
  }

  /** Puts `p` in front of a successful result; failure stays failure. */
  function Prepend(p: string, o: Option<string>): (r: Option<string>)
    ensures r.Some? <==> o.Some?
    ensures r.Some? ==> r.value == p + o.value
  {
    match o
    case None => None
    case Some(t) => Some(p + t)
  }

  /** The meaning of `s` read outside any repeat group; None when `s` is malformed. */
  function Expand(s: string): Option<string>
    decreases |s|, 1
  {
    if s == [] then Some([])
    else if s[0] == '\\' then
      if 1 < |s| && IsEscapable(s[1]) then Prepend([s[1]], Expand(s[2..])) else None
    else if IsDigit(s[0]) && 1 < |s| && s[1] == '[' then ExpandGroup(s[2..], DigitValue(s[0]), [])
    else if s[0] == ']' then None
    else if s[0] == '[' then None
    else Prepend([s[0]], Expand(s[1..]))
  }

  /**
   * The meaning of `s` read inside an open group whose count is `count` and
   * whose body so far is `body`. A digit followed by `[` inside a group only
   * replaces the count, as the original does.
   */
  function ExpandGroup(s: string, count: nat, body: string): (r: Option<string>)
    ensures r.Some? ==> exists i :: 0 <= i < |s| && s[i] == ']'
    decreases |s|, 0
  {
    if s == [] then None
    else if s[0] == '\\' then
      if 1 < |s| && IsEscapable(s[1]) then ExpandGroup(s[2..], count, body + [s[1]]) else None
    else if IsDigit(s[0]) && 1 < |s| && s[1] == '[' then ExpandGroup(s[2..], DigitValue(s[0]), body)
    else if s[0] == ']' then Prepend(Repeat(body, count), Expand(s[1..]))
    else if s[0] == '[' then None
    else ExpandGroup(s[1..], count, body + [s[0]])
  }

  lemma PrependEmpty(o: Option<string>)
    ensures Prepend([], o) == o
  {
    if o.Some? {
      assert [] + o.value == o.value;
    }
  }

  lemma PrependAssoc(a: string, b: string, o: Option<string>)
    ensures Prepend(a, Prepend(b, o)) == Prepend(a + b, o)
  {
    if o.Some? {
      assert a + (b + o.value) == (a + b) + o.value;
    }
  }

  /**
   * `Decompress(inStr, outStr)`: true and the expansion of `inStr` when it is
   * well formed; false, with `outStr` left as it was, otherwise.
   */
  method Decompress(inStr: string, outStr: string) returns (ok: bool, result: string)
    ensures ok <==> Expand(inStr).Some?
    ensures ok ==> result == Expand(inStr).value
    ensures !ok ==> result == outStr
  {
    var n := |inStr|;
    var count: nat := 0;
    var repeatSequence := false;
    var out: string := [];
    var sub: string := [];
    var i := 0;
    assert inStr[i..] == inStr;
    PrependEmpty(Expand(inStr));
    while i < n
      invariant 0 <= i <= n
      invariant !repeatSequence ==> Expand(inStr) == Prepend(out, Expand(inStr[i..]))
      invariant !repeatSequence ==> sub == []
      invariant repeatSequence ==> Expand(inStr) == Prepend(out, ExpandGroup(inStr[i..], count, sub))
    {
      var c := inStr[i];
      assert inStr[i..][1..] == inStr[i + 1..];
      assert i + 1 < n ==> inStr[i..][2..] == inStr[i + 2..];
      if c == '\\' {
        if i < n - 1 && IsEscapable(inStr[i + 1]) {
          i := i + 1;
          if repeatSequence {
            sub := sub + [inStr[i]];
          } else {
            PrependAssoc(out, [inStr[i]], Expand(inStr[i + 1..]));
            out := out + [inStr[i]];
          }
        } else {
          return false, outStr;
        }
      } else if IsDigit(c) && i < n - 1 && inStr[i + 1] == '[' {
        count := DigitValue(c);
        repeatSequence := true;
        i := i + 1;
      } else if c == ']' {
        if repeatSequence {
          var body := sub;
          sub := [];
          ghost var before := out;
          for z := 0 to count
            invariant out == before + Repeat(body, z)
          {
            out := out + body;
          }
          PrependAssoc(before, Repeat(body, count), Expand(inStr[i + 1..]));
          repeatSequence := false;
          count := 0;
        } else {
          return false, outStr;
        }
      } else if c == '[' {
        return false, outStr;
      } else {
        if repeatSequence {
          sub := sub + [c];
        } else {
          PrependAssoc(out, [c], Expand(inStr[i + 1..]));
          out := out + [c];
        }
      }
      i := i + 1;
    }
    if repeatSequence {
      return false, outStr;
    }
    ok, result := true, out;
  }

  /** Plain text in front of the rest passes through unchanged, unless its last digit opens a group. */
  lemma {:induction false} PlainPrefix(p: string, rest: string)
    requires IsPlain(p)
    requires p == [] || rest == [] || rest[0] != '[' || !IsDigit(p[|p| - 1])
    ensures Expand(p + rest) == Prepend(p, Expand(rest))
  {
    if p == [] {
      assert p + rest == rest;
      PrependEmpty(Expand(rest));
    } else {
      var s := p + rest;
      assert s[0] == p[0];
      assert |p| > 1 ==> s[1] == p[1];
      assert s[1..] == p[1..] + rest;
      assert IsPlain(p[1..]);
      PlainPrefix(p[1..], rest);
      PrependAssoc([p[0]], p[1..], Expand(rest));
      assert [p[0]] + p[1..] == p;
    }
  }

  /** Text without `\`, `[` and `]` decompresses to itself. */
  lemma {:induction false} PlainIsIdentity(s: string)
    requires IsPlain(s)
    ensures Expand(s) == Some(s)
  {
    PlainPrefix(s, []);
    assert s + [] == s;
  }

  /** Inside a group, plain text up to the closing bracket is collected and then repeated. */
  lemma {:induction false} GroupOfPlainBody(body: string, count: nat, acc: string, rest: string)
    requires IsPlain(body)
    ensures ExpandGroup(body + [']'] + rest, count, acc) == Prepend(Repeat(acc + body, count), Expand(rest))
  {
    var s := body + [']'] + rest;
    if body == [] {
      assert s == [']'] + rest;
      assert s[1..] == rest;
      assert acc + body == acc;
    } else {
      assert s[0] == body[0];
      assert s[1] == if |body| > 1 then body[1] else ']';
      assert s[1..] == body[1..] + [']'] + rest;
      assert IsPlain(body[1..]);
      GroupOfPlainBody(body[1..], count, acc + [body[0]], rest);
      assert (acc + [body[0]]) + body[1..] == acc + body;
    }
  }

  /** Inside a group, plain text in front of the rest is collected into the body, unless its last digit opens a group. */
  lemma {:induction false} GroupPlainPrefix(p: string, rest: string, count: nat, acc: string)
    requires IsPlain(p)
    requires p == [] || rest == [] || rest[0] != '[' || !IsDigit(p[|p| - 1])
    ensures ExpandGroup(p + rest, count, acc) == ExpandGroup(rest, count, acc + p)
  {
    if p == [] {
      assert p + rest == rest;
      assert acc + p == acc;
    } else {
      var s := p + rest;
      assert s[0] == p[0];
      assert |p| > 1 ==> s[1] == p[1];
      assert s[1..] == p[1..] + rest;
      assert IsPlain(p[1..]);
      GroupPlainPrefix(p[1..], rest, count, acc + [p[0]]);
      assert (acc + [p[0]]) + p[1..] == acc + p;
    }
  }

  /** Outside a group, `\\`, `\[` and `\]` after plain text stand for the escaped character. */
  lemma EscapeEmits(p: string, c: char, rest: string)
    requires IsPlain(p) && IsEscapable(c)
    ensures Expand(p + ['\\', c] + rest) == Prepend(p + [c], Expand(rest))
  {
    var e := ['\\', c] + rest;
    assert e[2..] == rest;
    assert Expand(e) == Prepend([c], Expand(rest));
    assert p + ['\\', c] + rest == p + e;
    PlainPrefix(p, e);
    PrependAssoc(p, [c], Expand(rest));
  }

  /** Outside a group, a backslash after plain text that is last or escapes anything else fails. */
  lemma BadEscapeFails(p: string, rest: string)
    requires IsPlain(p) && (rest == [] || !IsEscapable(rest[0]))
    ensures Expand(p + ['\\'] + rest) == None
  {
    var e := ['\\'] + rest;
    assert 1 < |e| ==> e[1] == rest[0];
    assert p + ['\\'] + rest == p + e;
    PlainPrefix(p, e);
  }

  /** Inside a group, an escaped character after plain text joins the body. */
  lemma GroupEscapeCollects(p: string, c: char, rest: string, count: nat, acc: string)
    requires IsPlain(p) && IsEscapable(c)
    ensures ExpandGroup(p + ['\\', c] + rest, count, acc) == ExpandGroup(rest, count, acc + p + [c])
  {
    var e := ['\\', c] + rest;
    assert e[2..] == rest;
    assert p + ['\\', c] + rest == p + e;
    GroupPlainPrefix(p, e, count, acc);
  }

  /** Inside a group, a backslash after plain text that is last or escapes anything else fails. */
  lemma GroupBadEscapeFails(p: string, rest: string, count: nat, acc: string)
    requires IsPlain(p) && (rest == [] || !IsEscapable(rest[0]))
    ensures ExpandGroup(p + ['\\'] + rest, count, acc) == None
  {
    var e := ['\\'] + rest;
    assert 1 < |e| ==> e[1] == rest[0];
    assert p + ['\\'] + rest == p + e;
    GroupPlainPrefix(p, e, count, acc);
  }

  /** `d[body]` with a plain body expands to `body` written `d` times. */
  lemma RepeatGroup(d: char, body: string, rest: string)
    requires IsDigit(d) && IsPlain(body)
    ensures Expand([d, '['] + body + [']'] + rest) == Prepend(Repeat(body, DigitValue(d)), Expand(rest))
  {
    var s := [d, '['] + body + [']'] + rest;
    assert s[2..] == body + [']'] + rest;
    GroupOfPlainBody(body, DigitValue(d), [], rest);
    assert [] + body == body;
  }

  /** A group that is never closed makes the whole input fail. */
  lemma {:induction false} UnclosedGroupFails(s: string, count: nat, body: string)
    requires forall i :: 0 <= i < |s| ==> s[i] != ']'
    ensures ExpandGroup(s, count, body) == None
  {
    if s == [] {
    } else if s[0] == '\\' {
      if 1 < |s| && IsEscapable(s[1]) {
        UnclosedGroupFails(s[2..], count, body + [s[1]]);
      }
    } else if IsDigit(s[0]) && 1 < |s| && s[1] == '[' {
      UnclosedGroupFails(s[2..], DigitValue(s[0]), body);
    } else if s[0] != '[' {
      UnclosedGroupFails(s[1..], count, body + [s[0]]);
    }
  }

  /** A `]` that closes no group makes the input fail. */
  lemma StrayCloseFails(p: string, rest: string)
    requires IsPlain(p)
    ensures Expand(p + [']'] + rest) == None
  {
    assert p + [']'] + rest == p + ([']'] + rest);
    PlainPrefix(p, [']'] + rest);
  }

  /** A `[` not directly preceded by a digit makes the input fail. */
  lemma OpenWithoutCountFails(p: string, rest: string)
    requires IsPlain(p)
    requires p == [] || !IsDigit(p[|p| - 1])
    ensures Expand(p + ['['] + rest) == None
  {
    assert p + ['['] + rest == p + (['['] + rest);
    PlainPrefix(p, ['['] + rest);
  }

  // The cases of the table that accompanies the original implementation.

  lemma ExampleHello()
    ensures Expand("") == Some("")
    ensures Expand("Hello") == Some("Hello")
  {
    PlainIsIdentity("Hello");
  }

  lemma ExampleSimpleGroup()
    ensures Expand("5[x]") == Some("xxxxx")
  {
    assert "5[x]" == ['5', '['] + "x" + [']'] + "";
    assert Repeat("x", 5) + "" == "xxxxx";
    RepeatGroup('5', "x", "");
  }

  lemma ExampleOnlyLastDigitCounts()
    ensures Expand("15[x]") == Some("1xxxxx")
  {
    assert "15[x]" == "1" + "5[x]";
    assert "1" + "xxxxx" == "1xxxxx";
    PlainPrefix("1", "5[x]");
    ExampleSimpleGroup();
  }

  lemma ExampleZeroCount()
    ensures Expand("0[x]0") == Some("0")
    ensures Expand("0[hello]") == Some("")
  {
    assert "0[x]0" == ['0', '['] + "x" + [']'] + "0";
    assert "0[hello]" == ['0', '['] + "hello" + [']'] + "";
    assert Repeat("x", 0) + "0" == "0";
    assert Repeat("hello", 0) + "" == "";
    RepeatGroup('0', "x", "0");
    PlainIsIdentity("0");
    RepeatGroup('0', "hello", "");
  }

  lemma ExampleEmptyGroup()
    ensures Expand("!9[]01") == Some("!01")
  {
    assert "9[]01" == ['9', '['] + "" + [']'] + "01";
    assert "!9[]01" == "!" + "9[]01";
    assert Repeat("", 9) + "01" == "01";
    assert "!" + "01" == "!01";
    RepeatGroup('9', "", "01");
    PlainIsIdentity("01");
    PlainPrefix("!", "9[]01");
  }

  lemma ExampleEscapedBackslash()
    ensures Expand("\\\\a") == Some("\\a")
  {
    var s := "\\\\a";
    assert s[0] == '\\' && s[1] == '\\';
    assert s[2..] == "a";
    assert "\\" + "a" == "\\a";
    PlainIsIdentity("a");
  }

  lemma ExampleEscapedBrackets()
    ensures Expand("\\[3[-]\\]") == Some("[---]")
  {
    var s := "\\[3[-]\\]";
    assert s[0] == '\\' && s[1] == '[';
    assert s[2..] == "3[-]\\]";
    assert "3[-]\\]" == ['3', '['] + "-" + [']'] + "\\]";
    assert "\\]"[2..] == "";
    assert "]" + "" == "]";
    assert Repeat("-", 3) + "]" == "---]";
    assert "[" + "---]" == "[---]";
    assert Expand("\\]") == Some("]");
    RepeatGroup('3', "-", "\\]");
  }

  lemma ExampleGroupBeforeDigits()
    ensures Expand("2[l]o321") == Some("llo321")
  {
    assert "2[l]o321" == ['2', '['] + "l" + [']'] + "o321";
    assert Repeat("l", 2) + "o321" == "llo321";
    PlainIsIdentity("o321");
    RepeatGroup('2', "l", "o321");
  }

  lemma ExampleDigitsAroundGroup()
    ensures Expand("123He2[l]o321") == Some("123Hello321")
  {
    assert "123He2[l]o321" == "123He" + "2[l]o321";
    assert "123He" + "llo321" == "123Hello321";
    PlainPrefix("123He", "2[l]o321");
    ExampleGroupBeforeDigits();
  }

  lemma ExampleSecondGroup()
    ensures Expand("3[ef]g") == Some("efefefg")
  {
    assert "3[ef]g" == ['3', '['] + "ef" + [']'] + "g";
    assert Repeat("ef", 3) + "g" == "efefefg";
    PlainIsIdentity("g");
    RepeatGroup('3', "ef", "g");
  }

  lemma ExampleFirstGroup()
    ensures Expand("2[cd]3[ef]g") == Some("cdcdefefefg")
  {
    assert "2[cd]3[ef]g" == ['2', '['] + "cd" + [']'] + "3[ef]g";
    assert Repeat("cd", 2) + "efefefg" == "cdcdefefefg";
    RepeatGroup('2', "cd", "3[ef]g");
    ExampleSecondGroup();
  }

  lemma ExampleTwoGroups()
    ensures Expand("a5b2[cd]3[ef]g") == Some("a5bcdcdefefefg")
  {
    assert "a5b" + "cdcdefefefg" == "a5bcdcdefefefg";
    assert "a5b2[cd]3[ef]g" == "a5b" + "2[cd]3[ef]g";
    PlainPrefix("a5b", "2[cd]3[ef]g");
    ExampleFirstGroup();
  }

  lemma ExampleEscapedGroupBody()
    ensures Expand("2[\\[X\\]]") == Some("[X][X]")
  {
    var g := "2[\\[X\\]]";
    assert g[2..] == "\\[X\\]]";
    assert "\\[X\\]]"[2..] == "X\\]]";
    assert "X\\]]"[1..] == "\\]]";
    assert "\\]]"[2..] == "]";
    assert "]"[1..] == "";
    assert Repeat("[X]", 2) + "" == "[X][X]";
    assert ExpandGroup("]", 2, "[X]") == Some("[X][X]");
    assert "[X" + "]" == "[X]";
    assert "[" + "X" == "[X";
    assert "" + "[" == "[";
    assert ExpandGroup("\\]]", 2, "[X") == ExpandGroup("]", 2, "[X]");
    assert ExpandGroup("X\\]]", 2, "[") == ExpandGroup("\\]]", 2, "[X");
    assert ExpandGroup("\\[X\\]]", 2, "") == ExpandGroup("X\\]]", 2, "[");
  }

  lemma ExampleEscapesInGroup()
    ensures Expand("1[12]2[\\[X\\]]") == Some("12[X][X]")
  {
    var g := "2[\\[X\\]]";
    ExampleEscapedGroupBody();
    assert "1[12]2[\\[X\\]]" == ['1', '['] + "12" + [']'] + g;
    RepeatGroup('1', "12", g);
    assert Repeat("12", 1) + "[X][X]" == "12[X][X]";
  }

  lemma ExampleBadEscapes()
    ensures Expand("\\") == None
    ensures Expand("\\a") == None
    ensures Expand("he\\llo") == None
  {
    assert "he\\llo" == "he" + "\\llo";
    PlainPrefix("he", "\\llo");
  }

  lemma ExampleUnclosed()
    ensures Expand("hel1234567[lo") == None
  {
    assert Expand("7[lo") == None by {
      assert "7[lo"[2..] == "lo";
      UnclosedGroupFails("lo", 7, []);
    }
    assert IsPlain("hel123456");
    assert "hel1234567[lo" == "hel123456" + "7[lo";
    PlainPrefix("hel123456", "7[lo");
  }

  lemma ExampleStrayBrackets()
    ensures Expand("hello]") == None
    ensures Expand("[hello]") == None
    ensures Expand("[") == None
    ensures Expand("]") == None
  {
    assert Expand("hello]") == None by {
      assert "hello]" == "hello" + [']'] + "";
      StrayCloseFails("hello", "");
    }
    assert "[hello]" == [] + ['['] + "hello]";
    OpenWithoutCountFails("", "hello]");
  }

  lemma ExampleNestedGroup()
    ensures Expand("0[1[x]]") == None
  {
    assert "0[1[x]]"[2..] == "1[x]]";
    assert "1[x]]"[2..] == "x]]";
    assert "x]]"[1..] == "]]";
    assert "]]"[1..] == "]";
    assert Expand("]") == None;
  }
}
