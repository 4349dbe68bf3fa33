/** Go constants that are written as raw string literals around a text nobody has escaped. */
module RawLiterals {
  import opened Prelude
  import opened Sequences

  const BACKTICK := '`'

  /** Carriage returns inside a raw string literal are not part of its value. */
  function DropReturns(raw: string): (r: string)
    ensures |r| <= |raw|
  {
    if raw == "" then "" else (if raw[0] == '\r' then "" else [raw[0]]) + DropReturns(raw[1..])
  }

  /** Position of the first backtick, or the length of `s` if it has none. */
  function FirstBacktick(s: string): (i: nat)
    ensures i <= |s| && forall k :: 0 <= k < i ==> s[k] != BACKTICK
    ensures i < |s| ==> s[i] == BACKTICK
    ensures i == |s| <==> BACKTICK !in s
  {
    if s == "" || s[0] == BACKTICK then 0
    else 1 + FirstBacktick(s[1..])
  }

  /** A plus sign between spaces. */
  predicate IsPlus(code: string) {
    code != "" &&
    if code[0] == ' ' then IsPlus(code[1..])
    else code[0] == '+' && forall k :: 1 <= k < |code| ==> code[k] == ' '
  }

  /**
   * The value of a constant whose initializer is `text` between two backticks. Backticks in
   * the text end the literal and begin another one; if there is just a plus sign in between
   * the constant is the concatenation. None stands for all that is not such a chain of
   * literals, valid or not.
   */
  function Value(text: string): (r: Option<string>)
    ensures r.Some? ==> |r.value| <= |text| && (BACKTICK in text ==> |r.value| < |text|)
    decreases |text|
  {
    var i := FirstBacktick(text);
    if i == |text| then Some(DropReturns(text))
    else
      var rest := text[i + 1..];
      var j := FirstBacktick(rest);
      if j == |rest| || !IsPlus(rest[..j]) then None
      else match Value(rest[j + 1..])
        case None => None
        case Some(v) => Some(DropReturns(text[..i]) + v)
  }

  /** Only carriage returns are dropped, and each of them, piece by piece. */
  lemma {:induction false} DropReturnsAppend(a: string, b: string)
    ensures DropReturns(a + b) == DropReturns(a) + DropReturns(b)
  {
    if a == "" {
      assert a + b == b;
    } else {
      DropReturnsAppend(a[1..], b);
      assert (a + b)[1..] == a[1..] + b && (a + b)[0] == a[0];
      Assoc(if a[0] == '\r' then "" else [a[0]], DropReturns(a[1..]), DropReturns(b));
    }
  }

  lemma DropOneReturn(ch: char)
    ensures DropReturns([ch]) == if ch == '\r' then "" else [ch]
  {
    assert [ch][1..] == "";
  }

  ghost predicate Spaces(s: string) {
    forall i :: 0 <= i < |s| ==> s[i] == ' '
  }

  lemma {:induction false} PlusHasForm(code: string) returns (a: string, b: string)
    requires IsPlus(code)
    ensures Spaces(a) && Spaces(b) && code == a + "+" + b
  {
    if code[0] == ' ' {
      a, b := PlusHasForm(code[1..]);
      a := " " + a;
    } else {
      a, b := "", code[1..];
    }
  }

  lemma {:induction false} FormIsPlus(a: string, b: string)
    requires Spaces(a) && Spaces(b)
    ensures IsPlus(a + "+" + b)
  {
    var code := a + "+" + b;
    if a == "" {
      assert forall k :: 1 <= k < |code| ==> code[k] == b[k - 1];
    } else {
      FormIsPlus(a[1..], b);
      assert code[1..] == a[1..] + "+" + b && code[0] == a[0];
    }
  }

  /** What joins two literals: a plus sign, and spaces around it. */
  lemma IsPlusIff(code: string)
    ensures IsPlus(code) <==> exists a, b :: Spaces(a) && Spaces(b) && code == a + "+" + b
  {
    if IsPlus(code) {
      var a, b := PlusHasForm(code);
    }
    if exists a, b :: Spaces(a) && Spaces(b) && code == a + "+" + b {
      var a, b :| Spaces(a) && Spaces(b) && code == a + "+" + b;
      FormIsPlus(a, b);
    }
  }

  /** A raw literal loses its carriage returns and nothing else. */
  lemma {:induction false} DropReturnsLength(raw: string)
    ensures |DropReturns(raw)| == |raw| <==> '\r' !in raw
    ensures '\r' !in raw ==> DropReturns(raw) == raw
  {
    if raw != "" {
      DropReturnsLength(raw[1..]);
      assert raw == [raw[0]] + raw[1..];
    }
  }

  /** The constant is the text if and only if there is neither a backtick nor a carriage return in it. */
  lemma ValueIsTextIff(text: string)
    ensures Value(text) == Some(text) <==> BACKTICK !in text && '\r' !in text
    ensures BACKTICK !in text ==> Value(text) == Some(DropReturns(text))
  {
    DropReturnsLength(text);
  }

  lemma FirstBacktickAfter(a: string, tail: string)
    requires BACKTICK !in a
    ensures FirstBacktick(a + [BACKTICK] + tail) == |a|
    ensures (a + [BACKTICK] + tail)[..|a|] == a && (a + [BACKTICK] + tail)[|a| + 1..] == tail
  {
    var s := a + [BACKTICK] + tail;
    assert s[|a|] == BACKTICK;
    assert forall k :: 0 <= k < |a| ==> s[k] == a[k];
  }

  /** One plus sign in backticks joins two literals, and is itself lost. */
  lemma PlusIsLost(a: string, code: string, b: string)
    requires BACKTICK !in a && BACKTICK !in code && BACKTICK !in b && IsPlus(code)
    ensures Value(a + [BACKTICK] + (code + [BACKTICK] + b)) == Some(DropReturns(a) + DropReturns(b))
  {
    FirstBacktickAfter(a, code + [BACKTICK] + b);
    FirstBacktickAfter(code, b);
    ValueIsTextIff(b);
  }

  /** A text with a plus sign in backticks in it, as in a value "u`+`v". */
  function Ticked(a: string, b: string): string {
    a + [BACKTICK] + ("+" + [BACKTICK] + b)
  }

  /** Its constant has three characters less. */
  lemma TickedValue(a: string, b: string)
    requires BACKTICK !in a && BACKTICK !in b && '\r' !in a && '\r' !in b
    ensures Value(Ticked(a, b)) == Some(a + b)
  {
    PlusIsLost(a, "+", b);
    ValueIsTextIff(a);
    ValueIsTextIff(b);
  }

  /** For instance this one. */
  lemma JoinedExample()
    ensures Value(Ticked("{k: u", "v}")) == Some("{k: u" + "v}")
  {
    TickedValue("{k: u", "v}");
  }

  /** Just one backtick leaves a literal open. */
  lemma OneBacktickIsNoChain(a: string, b: string)
    requires BACKTICK !in a && BACKTICK !in b
    ensures Value(a + [BACKTICK] + b) == None
  {
    FirstBacktickAfter(a, b);
  }
}
