/** The C string functions that the request parser uses, on NUL-free texts. */
module HttpText {

  predicate IsBlank(ch: char) { ch == ' ' || ch == '\t' }
  predicate IsBreak(ch: char) { ch == '\r' || ch == '\n' }

  /** First position at or after `i` that holds a blank, or the end (strpbrk). */
  function FindBlank(s: string, i: nat): (k: nat)
    requires i <= |s|
    ensures i <= k <= |s|
    ensures forall j :: i <= j < k ==> s[j] != ' ' && s[j] != '\t'
    ensures k < |s| ==> s[k] == ' ' || s[k] == '\t'
    decreases |s| - i
  {
    if i == |s| || IsBlank(s[i]) then i else FindBlank(s, i + 1)
  }

  /** First position at or after `i` that holds no blank (strspn). */
  function SkipBlank(s: string, i: nat): (k: nat)
    requires i <= |s|
    ensures i <= k <= |s|
    ensures forall j :: i <= j < k ==> s[j] == ' ' || s[j] == '\t'
    ensures k < |s| ==> s[k] != ' ' && s[k] != '\t'
    decreases |s| - i
  {
    if i == |s| || !IsBlank(s[i]) then i else SkipBlank(s, i + 1)
  }

  /** First position at or after `i` that holds `ch`, or the end (strchr). */
  function FindChar(s: string, ch: char, i: nat): (k: nat)
    requires i <= |s|
    ensures i <= k <= |s|
    ensures forall j :: i <= j < k ==> s[j] != ch
    ensures k < |s| ==> s[k] == ch
    decreases |s| - i
  {
    if i == |s| || s[i] == ch then i else FindChar(s, ch, i + 1)
  }

  function Lower(ch: char): char {
    if 'A' <= ch <= 'Z' then (ch as int + 32) as char else ch
  }

  /** The 26 pairs of letters, and nothing else, are identified. */
  lemma LowerMeaning(a: char, b: char)
    ensures Lower(a) == Lower(b) <==> SameLetter(a, b)
  {
    var upper, lower := "ABCDEFGHIJKLMNOPQRSTUVWXYZ", "abcdefghijklmnopqrstuvwxyz";
    assert forall i :: 0 <= i < 26 ==> upper[i] as int == 65 + i && lower[i] as int == 97 + i;
    if Lower(a) == Lower(b) && a != b {
      var i := (if a < b then a else b) as int - 65;
      assert {a, b} == {upper[i], lower[i]};
    }
  }

  /** strcasecmp(a, b) == 0 */
  predicate EqNoCase(a: string, b: string) {
    |a| == |b| && forall i :: 0 <= i < |a| ==> Lower(a[i]) == Lower(b[i])
  }

  /** The same letter, or the same letter in the other case. */
  predicate SameLetter(a: char, b: char) {
    a == b || exists i :: 0 <= i < 26 && {a, b} == {"ABCDEFGHIJKLMNOPQRSTUVWXYZ"[i], "abcdefghijklmnopqrstuvwxyz"[i]}
  }

  lemma EqNoCaseMeaning(a: string, b: string)
    ensures EqNoCase(a, b) <==> |a| == |b| && forall i :: 0 <= i < |a| ==> SameLetter(a[i], b[i])
  {
    forall i | 0 <= i < |a| && i < |b| ensures Lower(a[i]) == Lower(b[i]) <==> SameLetter(a[i], b[i]) {
      LowerMeaning(a[i], b[i]);
    }
  }

  /** strncasecmp(a, b, strlen(b)) == 0 */
  predicate StartsNoCase(a: string, b: string) {
    |b| <= |a| && EqNoCase(a[..|b|], b)
  }

  predicate IsDigit(ch: char) { '0' <= ch <= '9' }

  function Digits(s: string, acc: int): int {
    if s == "" || !IsDigit(s[0]) then acc else Digits(s[1..], acc * 10 + (s[0] as int - '0' as int))
  }

  /** atoi without its overflow. */
  function Atoi(s: string): int {
    if s == "" then 0
    else if s[0] in " \t\n\r" || s[0] as int == 11 || s[0] as int == 12 then Atoi(s[1..])
    else if s[0] == '-' then -Digits(s[1..], 0)
    else if s[0] == '+' then Digits(s[1..], 0)
    else Digits(s, 0)
  }

  /** The C string that starts at `i`: the bytes before the next NUL. */
  function CStr(buf: string, i: nat): (t: string)
    requires i <= |buf|
    ensures i + |t| <= |buf| && t == buf[i..i + |t|]
    ensures forall j :: 0 <= j < |t| ==> t[j] != '\0'
    ensures i + |t| < |buf| ==> buf[i + |t|] == '\0'
  {
    buf[i..FindChar(buf, '\0', i)]
  }

  /** A string is determined by where its terminating NUL is. */
  lemma CStrIs(buf: string, i: nat, t: string)
    requires i + |t| < |buf| && buf[i..i + |t|] == t && buf[i + |t|] == '\0'
    requires forall j :: 0 <= j < |t| ==> t[j] != '\0'
    ensures CStr(buf, i) == t
  {
    var u := CStr(buf, i);
    assert forall j :: 0 <= j < |t| ==> t[j] == buf[i + j];
    assert forall j :: 0 <= j < |u| ==> u[j] == buf[i + j];
  }

  /** Strings terminated before `n` depend on the first `n` bytes only. */
  lemma CStrPrefix(a: string, b: string, i: nat, n: nat)
    requires n <= |a| && n <= |b| && a[..n] == b[..n]
    requires i <= |a| && i + |CStr(a, i)| < n
    ensures CStr(b, i) == CStr(a, i)
  {
    var t := CStr(a, i);
    assert forall j :: 0 <= j < n ==> a[j] == a[..n][j] == b[..n][j] == b[j];
    assert forall j :: 0 <= j < |t| ==> t[j] == a[i + j] == b[i + j];
    CStrIs(b, i, t);
  }
}
