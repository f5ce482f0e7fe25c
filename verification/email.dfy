/** The minimal e-mail shape `^[^@\s]+@[^@\s]+\.[^@\s]+$` that the back end
    (clients.ts, publicForms.ts) and the public form page all test against. */
module Email {
  import opened Text

  /** Every character is neither `@` nor white space: the class `[^@\s]`. */
  predicate NoAtOrSpace(s: string) {
    forall i :: 0 <= i < |s| ==> s[i] != '@' && !IsSpace(s[i])
  }

  /** What the regular expression accepts, read literally: a non-empty local
      part, `@`, a non-empty name, a literal `.`, and a non-empty rest, the three
      parts drawn from `[^@\s]`. */
  ghost predicate RegexAccepts(s: string) {
    exists i, j ::
      && 0 < i && i + 1 < j && j + 1 < |s|
      && s[i] == '@' && s[j] == '.'
      && NoAtOrSpace(s[..i]) && NoAtOrSpace(s[i + 1..j]) && NoAtOrSpace(s[j + 1..])
  }

  /** Position of the first `c` in `s`, or `|s|` when there is none. */
  function IndexOf(s: string, c: char): (k: nat)
    ensures k <= |s|
    ensures k < |s| ==> s[k] == c
    ensures forall i :: 0 <= i < k ==> s[i] != c
  {
    if |s| == 0 then 0
    else if s[0] == c then 0
    else 1 + IndexOf(s[1..], c)
  }

  /** A `.` with at least one character on each side. */
  predicate HasInnerDot(d: string) {
    exists k :: 0 < k < |d| - 1 && d[k] == '.'
  }

  /** The e-mail test as the system applies it: the text before the first `@`
      is a non-empty local part; everything after it is free of `@` and white
      space and has an inner dot. */
  predicate ValidEmail(s: string) {
    var at := IndexOf(s, '@');
    && 0 < at < |s|
    && NoAtOrSpace(s[..at])
    && NoAtOrSpace(s[at + 1..])
    && HasInnerDot(s[at + 1..])
  }

  /** The executable test accepts exactly what the regular expression accepts. */
  lemma ValidEmailIsRegex(s: string)
    ensures ValidEmail(s) <==> RegexAccepts(s)
  {
    if ValidEmail(s) {
      ValidEmailMatches(s);
    }
    if RegexAccepts(s) {
      var i, j :|
        && 0 < i && i + 1 < j && j + 1 < |s|
        && s[i] == '@' && s[j] == '.'
        && NoAtOrSpace(s[..i]) && NoAtOrSpace(s[i + 1..j]) && NoAtOrSpace(s[j + 1..]);
      RegexMatchIsValid(s, i, j);
    }
  }

  lemma ValidEmailMatches(s: string)
    requires ValidEmail(s)
    ensures RegexAccepts(s)
  {
    var at := IndexOf(s, '@');
    var d := s[at + 1..];
    var k :| 0 < k < |d| - 1 && d[k] == '.';
    var j := at + 1 + k;
    assert s[at + 1..j] == d[..k];
    assert s[j + 1..] == d[k + 1..];
    assert s[j] == '.';
  }

  lemma RegexMatchIsValid(s: string, i: int, j: int)
    requires 0 < i && i + 1 < j && j + 1 < |s|
    requires s[i] == '@' && s[j] == '.'
    requires NoAtOrSpace(s[..i]) && NoAtOrSpace(s[i + 1..j]) && NoAtOrSpace(s[j + 1..])
    ensures ValidEmail(s)
  {
    assert forall k :: 0 <= k < i ==> s[..i][k] == s[k];
    assert IndexOf(s, '@') == i;
    var d := s[i + 1..];
    forall k | 0 <= k < |d|
      ensures d[k] != '@' && !IsSpace(d[k])
    {
      if k < j - i - 1 {
        assert d[k] == s[i + 1..j][k];
      } else if k > j - i - 1 {
        assert d[k] == s[j + 1..][k - (j - i)];
      }
    }
    assert NoAtOrSpace(d);
    assert d[j - i - 1] == '.';
    assert HasInnerDot(d);
  }

  /** A valid address holds exactly one `@`, has no white space, and its local
      part and the text on both sides of the domain's dot are non-empty. */
  lemma ValidEmailShape(s: string)
    requires ValidEmail(s)
    ensures exists at :: 0 < at < |s| - 3 && s[at] == '@' && HasInnerDot(s[at + 1..])
    ensures forall i, k :: 0 <= i < k < |s| && s[i] == '@' ==> s[k] != '@'
    ensures forall i :: 0 <= i < |s| ==> !IsSpace(s[i])
  {
    var at := IndexOf(s, '@');
    assert s[at] == '@';
    forall i | 0 <= i < |s|
      ensures !IsSpace(s[i]) && (s[i] == '@' ==> i == at)
    {
      if i < at {
        assert s[i] == s[..at][i];
      } else if i > at {
        assert s[i] == s[at + 1..][i - at - 1];
      }
    }
  }
}
