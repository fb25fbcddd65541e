/**
 * The two alert sign-up widgets of the frontend: the input masks they apply while the
 * user types (a Brazilian phone mask, a Telegram chat id or username) and the guard
 * that refuses to send a blank field. The request itself is the `Sent` outcome.
 */
module Contact {
  import opened Chars
  import opened Text

  // ---------------------------------------------------------------------------
  // String.prototype.trim and the blank-field guard

  /** ECMAScript WhiteSpace and LineTerminator, the characters trim() removes. */
  predicate IsJsSpace(c: char) {
    || ('\t' <= c <= '\r') || c == ' ' || c == '\U{A0}' || c == '\U{1680}'
    || ('\U{2000}' <= c <= '\U{200A}')
    || c == '\U{2028}' || c == '\U{2029}' || c == '\U{202F}' || c == '\U{205F}'
    || c == '\U{3000}' || c == '\U{FEFF}'
  }

  function TrimStart(s: string): (r: string)
    ensures |r| <= |s| && r == s[|s| - |r|..]
    ensures r == [] || !IsJsSpace(r[0])
    ensures forall i :: 0 <= i < |s| - |r| ==> IsJsSpace(s[i])
  {
    if s != [] && IsJsSpace(s[0]) then TrimStart(s[1..]) else s
  }

  function TrimEnd(s: string): (r: string)
    ensures |r| <= |s| && r == s[..|r|]
    ensures r == [] || !IsJsSpace(r[|r| - 1])
    ensures forall i :: |r| <= i < |s| ==> IsJsSpace(s[i])
  {
    if s != [] && IsJsSpace(s[|s| - 1]) then TrimEnd(s[..|s| - 1]) else s
  }

  /** s.trim(): blank exactly when every character is white space. */
  function JsTrim(s: string): (r: string)
    ensures r == [] <==> forall i :: 0 <= i < |s| ==> IsJsSpace(s[i])
    ensures (s == [] || (!IsJsSpace(s[0]) && !IsJsSpace(s[|s| - 1]))) ==> r == s
  {
    var a := TrimStart(s);
    var r := TrimEnd(a);
    assert r == [] ==> a == [];
    r
  }

  /** What handleSubmit does: refuse with a message, or post the trimmed field. */
  datatype Submission = Refused(message: string) | Sent(body: string)

  /** The guard and request of handleSubmit, for the message the widget shows. */
  function Submit(field: string, blankMessage: string): (r: Submission)
    ensures r.Refused? <==> forall i :: 0 <= i < |field| ==> IsJsSpace(field[i])
    ensures r.Refused? ==> r.message == blankMessage
    ensures r.Sent? ==> r.body == JsTrim(field) && r.body != []
  {
    var t := JsTrim(field);
    if t == [] then Refused(blankMessage) else Sent(t)
  }

  // ---------------------------------------------------------------------------
  // WhatsApp: formatPhoneNumber

  function Digits(s: string): (r: string)
    ensures forall i :: 0 <= i < |r| ==> IsAsciiDigit(r[i])
  {
    Filter(s, IsAsciiDigit)
  }

  function Min(a: int, b: int): int {
    if a <= b then a else b
  }

  /**
   * formatPhoneNumber: the digits of the input under the mask "(DD) DDDDD-DDDD", filled
   * as far as there are digits, and never with more than eleven.
   */
  function FormatPhoneNumber(value: string): (r: string)
    ensures var n := Digits(value);
      && (|n| <= 2 ==> r == n)
      && (3 <= |n| <= 7 ==> r == "(" + n[..2] + ") " + n[2..])
      && (8 <= |n| ==> r == "(" + n[..2] + ") " + n[2..7] + "-" + n[7..Min(|n|, 11)])
    ensures |r| <= 15
    ensures Digits(r) == Digits(value)[..Min(|Digits(value)|, 11)]
  {
    var n := Digits(value);
    if |n| <= 2 then
      PhoneDigits(n, n);
      n
    else if |n| <= 7 then
      var r := "(" + n[..2] + ") " + n[2..];
      PhoneDigits(n, r);
      r
    else
      var r := "(" + n[..2] + ") " + n[2..7] + "-" + n[7..Min(|n|, 11)];
      PhoneDigits(n, r);
      r
  }

  lemma DigitsOfDigits(s: string)
    requires forall i :: 0 <= i < |s| ==> IsAsciiDigit(s[i])
    ensures Digits(s) == s
  {
  }

  lemma DigitsAppend(a: string, b: string)
    ensures Digits(a + b) == Digits(a) + Digits(b)
  {
    FilterAppend(a, b, IsAsciiDigit);
  }

  /** The digits of "(A) B" are those of A and B. */
  lemma ShortMaskDigits(a: string, b: string)
    ensures Digits("(" + a + ") " + b) == Digits(a) + Digits(b)
  {
    DigitsAppend("(" + a + ") ", b);
    DigitsAppend("(" + a, ") ");
    DigitsAppend("(", a);
  }

  /** The digits of "(A) B-C" are those of A, B and C. */
  lemma LongMaskDigits(a: string, b: string, c: string)
    ensures Digits("(" + a + ") " + b + "-" + c) == Digits(a) + Digits(b) + Digits(c)
  {
    DigitsAppend("(" + a + ") " + b + "-", c);
    DigitsAppend("(" + a + ") " + b, "-");
    ShortMaskDigits(a, b);
  }

  /** The digits of each shape of the mask are the digits put into it. */
  lemma PhoneDigits(n: string, r: string)
    requires forall i :: 0 <= i < |n| ==> IsAsciiDigit(n[i])
    requires
      || (|n| <= 2 && r == n)
      || (3 <= |n| <= 7 && r == "(" + n[..2] + ") " + n[2..])
      || (8 <= |n| && r == "(" + n[..2] + ") " + n[2..7] + "-" + n[7..Min(|n|, 11)])
    ensures Digits(r) == n[..Min(|n|, 11)]
  {
    if |n| <= 2 {
      DigitsOfDigits(n);
      assert n[..Min(|n|, 11)] == n;
    } else if |n| <= 7 {
      ShortMaskDigits(n[..2], n[2..]);
      DigitsOfDigits(n[..2]);
      DigitsOfDigits(n[2..]);
      assert n[..2] + n[2..] == n == n[..Min(|n|, 11)];
    } else {
      LongPhoneDigits(n, Min(|n|, 11));
    }
  }

  lemma LongPhoneDigits(n: string, m: nat)
    requires forall i :: 0 <= i < |n| ==> IsAsciiDigit(n[i])
    requires 8 <= m <= |n|
    ensures Digits("(" + n[..2] + ") " + n[2..7] + "-" + n[7..m]) == n[..m]
  {
    LongMaskDigits(n[..2], n[2..7], n[7..m]);
    DigitsOfDigits(n[..2]);
    DigitsOfDigits(n[2..7]);
    DigitsOfDigits(n[7..m]);
    assert n[..2] + n[2..7] + n[7..m] == n[..m];
  }

  /** The mask is stable: formatting an already formatted number changes nothing. */
  lemma PhoneIdempotent(value: string)
    ensures FormatPhoneNumber(FormatPhoneNumber(value)) == FormatPhoneNumber(value)
  {
    var n := Digits(value);
    var m := n[..Min(|n|, 11)];
    assert Digits(FormatPhoneNumber(value)) == m;
    if |n| >= 8 {
      assert m[..2] == n[..2] && m[2..7] == n[2..7] && m[7..Min(|m|, 11)] == n[7..Min(|n|, 11)];
    } else {
      assert m == n;
    }
  }

  /** The field holds the masked input, so sending is refused exactly when no digit was typed. */
  lemma PhoneSubmitRefusedIffNoDigits(typed: string, blankMessage: string)
    ensures Submit(FormatPhoneNumber(typed), blankMessage).Refused? <==> Digits(typed) == []
  {
    var r := FormatPhoneNumber(typed);
    var n := Digits(typed);
    if n != [] {
      if |n| <= 2 {
        assert IsAsciiDigit(r[0]);
      } else {
        assert r[0] == '(';
      }
    }
  }

  // ---------------------------------------------------------------------------
  // Telegram: formatTelegramId

  /** [a-zA-Z0-9_@], the characters a Telegram id may keep. */
  predicate IsIdChar(c: char) {
    IsAsciiLetter(c) || IsAsciiDigit(c) || c == '_' || c == '@'
  }

  predicate AllDigits(s: string) {
    s != [] && forall i :: 0 <= i < |s| ==> IsAsciiDigit(s[i])
  }

  function Take(s: string, n: nat): (r: string)
    ensures |r| == Min(|s|, n) && r == s[..|r|]
  {
    if |s| > n then s[..n] else s
  }

  /**
   * formatTelegramId: keep the id characters; a numeric chat id is cut to 15 digits,
   * anything else becomes an @username of at most 33 characters. The trim() before the
   * filter removes only white space, which the filter drops anyway.
   */
  function FormatTelegramId(value: string): (r: string)
    ensures var f := Filter(value, IsIdChar);
      && (AllDigits(f) ==> r == Take(f, 15))
      && (f == [] ==> r == [])
      && (f != [] && !AllDigits(f) ==> r != [] && r[0] == '@' && |r| <= 33)
      && (f != [] && !AllDigits(f) && f[0] != '@' ==> r == Take("@" + f, 33))
      && (f != [] && f[0] == '@' ==> r == Take(f, 33))
    ensures forall i :: 0 <= i < |r| ==> IsIdChar(r[i])
  {
    var f := Filter(value, IsIdChar);
    if AllDigits(f) then Take(f, 15)
    else
      var g := if f != [] && f[0] != '@' then "@" + f else f;
      assert forall i :: 0 <= i < |g| ==> IsIdChar(g[i]);
      Take(g, 33)
  }

  /** Formatting an already formatted id changes nothing. */
  lemma TelegramIdempotent(value: string)
    ensures FormatTelegramId(FormatTelegramId(value)) == FormatTelegramId(value)
  {
    var r := FormatTelegramId(value);
    assert Filter(r, IsIdChar) == r;
    var f := Filter(value, IsIdChar);
    if AllDigits(f) {
      assert AllDigits(r);
    } else if r != [] {
      assert !AllDigits(r);
    }
  }

  /** A numeric id never gets an '@'; a username always starts with one. */
  lemma TelegramShapes(value: string)
    ensures var r := FormatTelegramId(value);
      (AllDigits(r) && |r| <= 15) || r == [] || (r[0] == '@' && |r| <= 33)
  {
  }

  lemma TelegramEmpty(value: string)
    ensures FormatTelegramId(value) == [] <==> Filter(value, IsIdChar) == []
  {
  }

  /** A field of id characters has no white space to trim: it is refused exactly when empty, and sent as it is. */
  lemma SubmitOfIdChars(r: string, blankMessage: string)
    requires forall i :: 0 <= i < |r| ==> IsIdChar(r[i])
    ensures Submit(r, blankMessage).Refused? <==> r == []
    ensures Submit(r, blankMessage).Sent? ==> Submit(r, blankMessage).body == r
  {
    if r != [] {
      assert IsIdChar(r[0]) && IsIdChar(r[|r| - 1]);
    }
  }

  /** The field holds the formatted id, so sending is refused exactly when no id character was typed. */
  lemma TelegramSubmitRefusedIffEmpty(typed: string, blankMessage: string)
    ensures Submit(FormatTelegramId(typed), blankMessage).Refused? <==> Filter(typed, IsIdChar) == []
    ensures Submit(FormatTelegramId(typed), blankMessage).Sent? ==>
      Submit(FormatTelegramId(typed), blankMessage).body == FormatTelegramId(typed)
  {
    TelegramEmpty(typed);
    SubmitOfIdChars(FormatTelegramId(typed), blankMessage);
  }
}
