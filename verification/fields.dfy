/**
 String helpers of the reassembly logic: JavaScript's `text.split("/")`, the
 "field i or empty string" idiom `text.split("/")[i] || ""`, and the
 whitespace removal `s.replace(/\s+/g, "")`.
 */
module Fields {

  const Slash: char := '/'

  /** Number of occurrences of `c` in `s`. */
  function CountChar(s: string, c: char): nat
  {
    if |s| == 0 then 0
    else (if s[0] == c then 1 else 0) + CountChar(s[1..], c)
  }

  /** JavaScript's `s.split("/")`: the maximal slash-free pieces between the
      slashes, so there is always one more field than there are slashes, and
      the empty string splits into one empty field. */
  function Split(s: string): (fields: seq<string>)
    ensures |fields| >= 1
  {
    if |s| == 0 then [""]
    else
      var rest := Split(s[1..]);
      if s[0] == Slash then [""] + rest
      else [[s[0]] + rest[0]] + rest[1..]
  }

  /** There is one more field than there are slashes, and no field holds a slash. */
  lemma {:induction false} SplitFields(s: string)
    ensures |Split(s)| == CountChar(s, Slash) + 1
    ensures SlashFree(Split(s))
  {
    if |s| > 0 {
      SplitFields(s[1..]);
    }
  }

  /** The inverse of `Split`: the fields glued back together with slashes. */
  function Join(fields: seq<string>): string
    requires |fields| >= 1
  {
    if |fields| == 1 then fields[0]
    else fields[0] + [Slash] + Join(fields[1..])
  }

  ghost predicate SlashFree(fields: seq<string>)
  {
    forall i :: 0 <= i < |fields| ==> Slash !in fields[i]
  }

  /** `s.split("/")[i] || ""`: the i-th field, or the empty string when the
      split has fewer than i + 1 fields. */
  function Field(s: string, i: nat): (field: string)
    ensures Slash !in field
  {
    SplitFields(s);
    var fields := Split(s);
    if i < |fields| then fields[i] else ""
  }

  /** Splitting and re-joining gives back the original text. */
  lemma {:induction false} SplitJoin(s: string)
    ensures Join(Split(s)) == s
  {
    if |s| > 0 {
      var rest := Split(s[1..]);
      SplitJoin(s[1..]);
      if s[0] == Slash {
        assert ([""] + rest)[1..] == rest;
      } else if |rest| > 1 {
        var fields := Split(s);
        assert fields[1..] == rest[1..];
        assert Join(rest) == rest[0] + [Slash] + Join(rest[1..]);
        assert s == [s[0]] + s[1..];
      } else {
        assert s == [s[0]] + s[1..];
      }
    }
  }

  /** A slash-free text is a single field. */
  lemma {:induction false} SplitNoSlash(a: string)
    requires Slash !in a
    ensures Split(a) == [a]
  {
    if |a| > 0 {
      SplitNoSlash(a[1..]);
      assert [a[0]] + a[1..] == a;
    }
  }

  /** A slash-free prefix followed by a slash is the first field. */
  lemma {:induction false} SplitPrefix(a: string, t: string)
    requires Slash !in a
    ensures Split(a + [Slash] + t) == [a] + Split(t)
  {
    var s := a + [Slash] + t;
    if |a| == 0 {
      assert s[1..] == t;
    } else {
      assert s[1..] == a[1..] + [Slash] + t;
      SplitPrefix(a[1..], t);
      assert [a[0]] + a[1..] == a;
    }
  }

  /** Joining slash-free fields and splitting again gives back the fields. */
  lemma {:induction false} JoinSplit(fields: seq<string>)
    requires |fields| >= 1
    requires SlashFree(fields)
    ensures Split(Join(fields)) == fields
  {
    if |fields| == 1 {
      SplitNoSlash(fields[0]);
    } else {
      JoinSplit(fields[1..]);
      SplitPrefix(fields[0], Join(fields[1..]));
      assert [fields[0]] + fields[1..] == fields;
    }
  }

  /** The field accessor read back on joined fields. */
  lemma {:induction false} FieldOfJoin(fields: seq<string>, i: nat)
    requires |fields| >= 1
    requires SlashFree(fields)
    ensures Field(Join(fields), i) == if i < |fields| then fields[i] else ""
  {
    JoinSplit(fields);
  }

  /** The first field is `a` (slash-free) exactly when the text is `a` itself
      or starts with `a` followed by a slash. */
  lemma FirstFieldIs(s: string, a: string)
    requires Slash !in a
    ensures Split(s)[0] == a <==> (s == a || (|s| > |a| && s[..|a| + 1] == a + [Slash]))
  {
    if s == a {
      SplitNoSlash(a);
    } else if |s| > |a| && s[..|a| + 1] == a + [Slash] {
      assert s == a + [Slash] + s[|a| + 1..];
      SplitPrefix(a, s[|a| + 1..]);
    }
    var fields := Split(s);
    if fields[0] == a && |fields| > 1 {
      SplitJoin(s);
      assert s == a + [Slash] + Join(fields[1..]);
    } else if fields[0] == a {
      SplitJoin(s);
    }
  }

  lemma {:induction false} CountCharAppend(a: string, b: string, c: char)
    ensures CountChar(a + b, c) == CountChar(a, c) + CountChar(b, c)
  {
    if |a| > 0 {
      assert (a + b)[1..] == a[1..] + b;
      CountCharAppend(a[1..], b, c);
    } else {
      assert a + b == b;
    }
  }

  lemma {:induction false} CountCharZero(s: string, c: char)
    ensures CountChar(s, c) == 0 <==> c !in s
  {
    if |s| > 0 {
      CountCharZero(s[1..], c);
      assert s == [s[0]] + s[1..];
    }
  }

  /** The field examples: any field of the empty text is empty, the middle
      field of "a/b/c" is "b", and a field beyond the end is empty. */
  lemma FieldExamples(i: nat)
    ensures Field("", i) == ""
    ensures Field("a/b/c", 1) == "b"
    ensures Field("a/b", 5) == ""
  {
    FieldOfJoin(["a", "b", "c"], 1);
    assert Join(["a", "b", "c"]) == "a/b/c";
    FieldOfJoin(["a", "b"], 5);
    assert Join(["a", "b"]) == "a/b";
  }

  /** The characters matched by JavaScript's `\s`: the ECMAScript WhiteSpace
      and LineTerminator code points. */
  predicate IsWhitespace(c: char)
  {
    || c == '\t' || c == '\n' || c == '\U{000B}' || c == '\U{000C}' || c == '\r'
    || c == ' ' || c == '\U{00A0}' || c == '\U{1680}'
    || ('\U{2000}' <= c <= '\U{200A}')
    || c == '\U{2028}' || c == '\U{2029}' || c == '\U{202F}' || c == '\U{205F}'
    || c == '\U{3000}' || c == '\U{FEFF}'
  }

  predicate NoWhitespace(s: string)
  {
    forall i :: 0 <= i < |s| ==> !IsWhitespace(s[i])
  }

  /** `s.replace(/\s+/g, "")`: every whitespace character removed, the rest
      kept in order. */
  function StripWhitespace(s: string): (r: string)
    ensures |r| <= |s|
  {
    if |s| == 0 then ""
    else if IsWhitespace(s[0]) then StripWhitespace(s[1..])
    else [s[0]] + StripWhitespace(s[1..])
  }

  /** No whitespace survives stripping. */
  lemma {:induction false} StripLeavesNoWhitespace(s: string)
    ensures NoWhitespace(StripWhitespace(s))
  {
    if |s| > 0 {
      StripLeavesNoWhitespace(s[1..]);
    }
  }

  /** Stripping keeps exactly the non-whitespace characters of the text. */
  lemma {:induction false} StripKeeps(s: string, c: char)
    ensures c in StripWhitespace(s) <==> c in s && !IsWhitespace(c)
  {
    if |s| > 0 {
      StripKeeps(s[1..], c);
      assert s == [s[0]] + s[1..];
    }
  }

  /** Stripping distributes over concatenation. */
  lemma {:induction false} StripAppend(a: string, b: string)
    ensures StripWhitespace(a + b) == StripWhitespace(a) + StripWhitespace(b)
  {
    if |a| == 0 {
      assert a + b == b;
    } else {
      assert (a + b)[1..] == a[1..] + b;
      StripAppend(a[1..], b);
    }
  }

  /** A text is left unchanged by stripping exactly when it has no whitespace. */
  lemma {:induction false} StripFixpoint(s: string)
    ensures StripWhitespace(s) == s <==> NoWhitespace(s)
  {
    if |s| > 0 {
      StripFixpoint(s[1..]);
      if IsWhitespace(s[0]) {
        assert |StripWhitespace(s)| < |s|;
      } else {
        assert s == [s[0]] + s[1..];
        assert NoWhitespace(s) <==> NoWhitespace(s[1..]);
      }
    }
  }

  /** Stripping twice is stripping once. */
  lemma {:induction false} StripIdempotent(s: string)
    ensures StripWhitespace(StripWhitespace(s)) == StripWhitespace(s)
  {
    StripLeavesNoWhitespace(s);
    StripFixpoint(StripWhitespace(s));
  }

  /** Stripping removes an inner blank and keeps the whitespace-free text
      around it. */
  lemma StripInnerBlank(a: string, b: string)
    requires NoWhitespace(a) && NoWhitespace(b)
    ensures StripWhitespace(a + " " + b) == a + b
  {
    assert StripWhitespace(" ") == "" by {
      assert IsWhitespace(' ');
      assert " "[1..] == "";
    }
    calc {
      StripWhitespace(a + " " + b);
      { StripAppend(a + " ", b); }
      StripWhitespace(a + " ") + StripWhitespace(b);
      { StripAppend(a, " "); }
      StripWhitespace(a) + "" + StripWhitespace(b);
      { StripFixpoint(a); StripFixpoint(b); }
      a + "" + b;
      { assert a + "" == a; }
      a + b;
    }
  }
}
