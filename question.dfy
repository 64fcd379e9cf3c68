/** How the handler turns a message that mentions the bot into the question it asks:
    every `<@id>` mention token of the bot is removed and the rest is stripped
    (bot.py line 49). */
module Question {
  import opened PyStr

  /** The decimal digit for `d`. */
  function Digit(d: nat): (c: char)
    requires d < 10
    ensures '0' <= c <= '9'
  {
    ('0' as int + d) as char
  }

  /** `str(n)` for a non-negative integer: its decimal digits, without leading zeros. */
  function Decimal(n: nat): (r: string)
    ensures r != []
    ensures forall k | 0 <= k < |r| :: '0' <= r[k] <= '9'
    decreases n
  {
    if n < 10 then [Digit(n)] else Decimal(n / 10) + [Digit(n % 10)]
  }

  /** The value of a string of decimal digits, read most significant digit first. */
  function DigitsValue(s: string): nat
    requires forall k | 0 <= k < |s| :: '0' <= s[k] <= '9'
  {
    if s == [] then 0
    else DigitsValue(s[..|s| - 1]) * 10 + (s[|s| - 1] as int - '0' as int)
  }

  /** The rendering reads back as the id, and has no leading zero. */
  lemma {:induction false} DecimalRoundTrip(n: nat)
    ensures DigitsValue(Decimal(n)) == n
    ensures |Decimal(n)| > 1 ==> Decimal(n)[0] != '0'
    decreases n
  {
    var r := Decimal(n);
    if n >= 10 {
      var d := Decimal(n / 10);
      DecimalRoundTrip(n / 10);
      assert r[..|r| - 1] == d;
      assert r[0] == d[0];
      if |d| == 1 {
        assert DigitsValue(d) == DigitsValue(d[..0]) * 10 + (d[0] as int - '0' as int);
        assert d[..0] == [];
      }
    }
  }

  /** The mention token `f'<@{bot.user.id}>'` of the bot with the given id. */
  function MentionToken(botId: nat): (tok: string)
    ensures |tok| >= 4 && tok[..2] == "<@" && tok[|tok| - 1] == '>'
    ensures forall k | 0 <= k < |tok| - 1 :: tok[k] != '>'
  {
    "<@" + Decimal(botId) + ">"
  }

  /** `message.content.replace(f'<@{bot.user.id}>', '').strip()`. */
  function ExtractQuestion(content: string, botId: nat): (q: string)
    ensures q == [] || (!IsSpace(q[0]) && !IsSpace(q[|q| - 1]))
    ensures |q| <= |content|
  {
    Strip(RemoveAll(content, MentionToken(botId)))
  }

  /** The question is the stripped concatenation of the text between the mention
      tokens that a left-to-right scan finds. */
  lemma QuestionFromPieces(content: string, botId: nat, ps: seq<string>)
    requires IsLeftmostSplit(content, MentionToken(botId), ps)
    ensures ExtractQuestion(content, botId) == Strip(Concat(ps))
  {
    RemoveAllConcatsPieces(content, MentionToken(botId), ps);
  }

  /** A mention token never overlaps itself: text free of tokens stays free of
      tokens starting inside it once a token is appended, because `>` only ends a
      token. */
  lemma TokenAfterTokenFreeText(q: string, botId: nat)
    requires NoMatchBefore(q, MentionToken(botId), |q|)
    ensures NoMatchBefore(q + MentionToken(botId), MentionToken(botId), |q|)
  {
    var tok := MentionToken(botId);
    var u := q + tok;
    forall j | 0 <= j < |q| ensures !StartsAt(u, tok, j) {
      if j + |tok| <= |q| {
        assert u[j..][..|tok|] == q[j..][..|tok|];
        assert !StartsAt(q, tok, j);
      } else {
        var m := j + |tok| - 1 - |q|;
        assert 0 <= m < |tok| - 1;
        assert u[j + |tok| - 1] == tok[m];
      }
    }
  }

  /** A message that is only the mention token and the question yields the
      stripped question, whether the token is written before or after it. */
  lemma MentionAtEitherEnd(q: string, botId: nat)
    requires NoMatchBefore(q, MentionToken(botId), |q|)
    ensures ExtractQuestion(MentionToken(botId) + q, botId) == Strip(q)
    ensures ExtractQuestion(q + MentionToken(botId), botId) == Strip(q)
  {
    var tok := MentionToken(botId);
    assert (tok + q)[|tok|..] == q;
    assert q + [] == q;
    RemoveAllKeepsUnmatched(q, [], tok);
    assert RemoveAll(tok + q, tok) == q;
    TokenAfterTokenFreeText(q, botId);
    RemoveAllKeepsUnmatched(q, tok, tok);
    assert tok[|tok|..] == [];
    assert RemoveAll(tok, tok) == [];
  }

  /** A message made of nothing but the mention token asks an empty question. */
  lemma MentionAloneIsEmpty(botId: nat)
    ensures ExtractQuestion(MentionToken(botId), botId) == []
  {
    var tok := MentionToken(botId);
    assert tok[|tok|..] == [];
  }

  /** One left-to-right pass over `<@<@1>1>`: the inner `<@1>` goes, and the `<@`
      before it and the `1>` after it are kept. */
  lemma RemoveAllExample()
    ensures RemoveAll("<@<@1>1>", "<@1>") == "<@1>"
  {
    var tok := "<@1>";
    var s := "<@<@1>1>";
    assert RemoveAll(">", tok) == ">" by {
      assert !(tok <= ">") && ">"[1..] == [];
    }
    assert RemoveAll("1>", tok) == "1>" by {
      assert !(tok <= "1>") && "1>"[1..] == ">";
    }
    assert RemoveAll(s[2..], tok) == "1>" by {
      assert s[2..] == "<@1>1>" && tok <= s[2..] && s[2..][4..] == "1>";
    }
    assert RemoveAll(s[1..], tok) == "@1>" by {
      assert s[1..] == "@<@1>1>" && !(tok <= s[1..]) && s[1..][1..] == s[2..];
    }
    assert !(tok <= s);
  }

  /** Removal makes a single pass: the token that removal brings together is kept. */
  lemma RemovalDoesNotRescan()
    ensures ExtractQuestion("<@<@1>1>", 1) == "<@1>"
  {
    assert Decimal(1) == "1";
    assert MentionToken(1) == "<@1>";
    RemoveAllExample();
    PrintableIsNotSpace('<');
    PrintableIsNotSpace('>');
    StripAt("<@1>", 0, 4);
    assert "<@1>"[0..4] == "<@1>";
  }

  /** Text without `<` holds no mention token. */
  lemma NoTokenWithoutAngle(s: string, botId: nat)
    requires forall k | 0 <= k < |s| :: s[k] != '<'
    ensures NoMatchBefore(s, MentionToken(botId), |s|)
  {
    var tok := MentionToken(botId);
    forall j | 0 <= j < |s| ensures !StartsAt(s, tok, j) {
      assert tok[0] == tok[..2][0] == '<';
    }
  }

  /** A token between two pieces of text is removed and the pieces are joined as
      they are: whitespace next to the token is kept unless it ends up at either end. */
  lemma MentionBetween(q1: string, q2: string, botId: nat)
    requires NoMatchBefore(q1, MentionToken(botId), |q1|)
    ensures ExtractQuestion(q1 + MentionToken(botId) + q2, botId)
            == Strip(q1 + RemoveAll(q2, MentionToken(botId)))
  {
    var tok := MentionToken(botId);
    TokenAfterTokenFreeText(q1, botId);
    NoMatchBeforeExtends(q1, tok, q2);
    assert q1 + tok + q2 == q1 + (tok + q2);
    RemoveAllKeepsUnmatched(q1, tok + q2, tok);
    assert (tok + q2)[|tok|..] == q2;
  }

  /** A token between two pieces of text free of tokens: the pieces are joined as
      they are, and whitespace next to the token stays unless it ends up at an end. */
  lemma MentionBetweenPlainText(q1: string, q2: string, botId: nat)
    requires NoMatchBefore(q1, MentionToken(botId), |q1|)
    requires NoMatchBefore(q2, MentionToken(botId), |q2|)
    ensures ExtractQuestion(q1 + MentionToken(botId) + q2, botId) == Strip(q1 + q2)
  {
    var tok := MentionToken(botId);
    MentionBetween(q1, q2, botId);
    assert q2 + [] == q2;
    RemoveAllKeepsUnmatched(q2, [], tok);
  }

  /** The two questions of the example below, once stripped. */
  lemma StripExamples()
    ensures Strip("a " + " b") == "a  b"
    ensures Strip(" a b") == "a b"
  {
    assert "a " + " b" == "a  b";
    PrintableIsNotSpace('a');
    PrintableIsNotSpace('b');
    assert IsSpace(' ');
    StripAt("a  b", 0, 4);
    assert "a  b"[0..4] == "a  b";
    StripAt(" a b", 1, 4);
    assert " a b"[1..4] == "a b";
  }

  /** Where the token stands can change the question: a token between two words
      leaves both spaces around it, ... */
  lemma MentionInsideKeepsSpaces(botId: nat)
    ensures ExtractQuestion("a " + MentionToken(botId) + " b", botId) == "a  b"
  {
    NoTokenWithoutAngle("a ", botId);
    NoTokenWithoutAngle(" b", botId);
    MentionBetweenPlainText("a ", " b", botId);
    StripExamples();
  }

  /** ... while a token in front leaves one, which `strip` then removes. */
  lemma MentionInFrontDropsSpace(botId: nat)
    ensures ExtractQuestion(MentionToken(botId) + " a b", botId) == "a b"
  {
    NoTokenWithoutAngle(" a b", botId);
    MentionAtEitherEnd(" a b", botId);
    StripExamples();
  }
}
