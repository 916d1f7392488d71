/** The grammar of cookie domains, and the one-pass scan that decides it. */
module CookieDomains {
  import opened CookieText
  import opened Splitting

  predicate IsLabelChar(c: char) {
    IsLetter(c) || '0' <= c <= '9' || c == '-'
  }

  // A label: up to 63 letters, digits and dashes, with no dash at either end.
  predicate IsLabel(w: string) {
    && 0 < |w| <= 63
    && (forall k | 0 <= k < |w| :: IsLabelChar(w[k]))
    && w[0] != '-' && w[|w| - 1] != '-'
  }

  // Labels between dots; one more dot may follow the last label.
  predicate AreLabels(s: string)
    decreases |s|
  {
    var j := IndexOf(s, '.');
    if j == |s| then IsLabel(s) else IsLabel(s[..j]) && (s[j + 1..] == "" || AreLabels(s[j + 1..]))
  }

  predicate HasLetter(s: string) {
    exists k | 0 <= k < |s| :: IsLetter(s[k])
  }

  // What the scan knows of the label under way: it starts at `start` and ends in front of `i`.
  predicate Under(s: string, start: nat, i: nat, prev: char) {
    && start <= i <= |s|
    && (forall k | start <= k < i :: IsLabelChar(s[k]))
    && (start < i ==> s[start] != '-')
    && prev == if start < i then s[i - 1] else '.'
  }

  lemma LetterStep(s: string, i: nat)
    requires i < |s|
    ensures HasLetter(s[i..]) <==> IsLetter(s[i]) || HasLetter(s[i + 1..])
  {
    var t, u := s[i..], s[i + 1..];
    assert t[0] == s[i] && forall k | 0 <= k < |u| :: t[k + 1] == u[k];
  }

  lemma LabelsAt(t: string, n: nat)
    requires n < |t| && t[n] == '.' && forall k | 0 <= k < n :: t[k] != '.'
    ensures AreLabels(t) <==> IsLabel(t[..n]) && (t[n + 1..] == "" || AreLabels(t[n + 1..]))
  {
    hide IsLabel;
    IndexOfIs(t, '.', n);
  }

  lemma LabelUnder(s: string, start: nat, i: nat, prev: char)
    requires Under(s, start, i, prev)
    ensures IsLabel(s[start..i]) <==> start < i <= start + 63 && prev != '-'
  {
    var w := s[start..i];
    assert forall k | 0 <= k < |w| :: w[k] == s[start + k];
  }

  lemma NoDotUnder(s: string, start: nat, i: nat, prev: char)
    requires Under(s, start, i, prev)
    ensures forall k | start <= k < i :: s[k] != '.'
  {
  }

  // The label under way ends at the dot at `i`.
  lemma AtDot(s: string, start: nat, i: nat, prev: char)
    requires Under(s, start, i, prev) && i < |s| && s[i] == '.'
    ensures var t := s[start..];
            AreLabels(t) <==> start < i <= start + 63 && prev != '-' && (s[i + 1..] == "" || AreLabels(s[i + 1..]))
  {
    LabelUnder(s, start, i, prev);
    NoDotUnder(s, start, i, prev);
    hide *;
    var t := s[start..];
    LabelsAt(t, i - start);
    assert t[..i - start] == s[start..i] && t[i - start + 1..] == s[i + 1..];
  }

  lemma AtEnd(s: string, start: nat, prev: char)
    requires Under(s, start, |s|, prev)
    ensures s[start..] == "" || AreLabels(s[start..]) <==> prev != '-' && |s| - start <= 63
  {
    var t := s[start..];
    IndexOfIs(t, '.', |t|);
  }

  // A character no label has, or a dash where a label starts.
  lemma BadChar(s: string, start: nat, i: nat, prev: char)
    requires Under(s, start, i, prev) && i < |s| && s[i] != '.' && (!IsLabelChar(s[i]) || (s[i] == '-' && start == i))
    ensures !AreLabels(s[start..])
  {
    var t := s[start..];
    var j := IndexOf(t, '.');
    assert t[i - start] == s[i];
    assert forall k | 0 <= k < i - start :: t[k] == s[start + k];
    assert j > i - start;
    assert t[..j][i - start] == s[i];
  }

  lemma {:induction false} ScanIff(s: string, start: nat, i: nat, prev: char, ok: bool)
    requires Under(s, start, i, prev)
    ensures DomainFrom(s, i, prev, ok, i - start)
            <==> (s[start..] == "" || AreLabels(s[start..])) && (ok || HasLetter(s[i..]))
    decreases |s| - i
  {
    hide AreLabels, HasLetter;
    if i == |s| {
      AtEnd(s, start, prev);
      NoLetter();
      assert s[i..] == "";
    } else {
      var c := s[i];
      LetterStep(s, i);
      if c == '.' {
        AtDot(s, start, i, prev);
        ScanIff(s, i + 1, i + 1, c, ok);
      } else if !IsLabelChar(c) || (c == '-' && start == i) {
        BadChar(s, start, i, prev);
      } else {
        ScanIff(s, start, i + 1, c, ok || IsLetter(c));
      }
    }
  }

  lemma NoLetter()
    ensures !HasLetter("")
  {
  }

  /** The scan accepts exactly the texts of at most 255 characters that are, behind an optional first dot, dotted labels
      with a letter somewhere. */
  lemma DomainNameIff(d: string)
    ensures IsDomainName(d) <==> 0 < |d| <= 255 && AreLabels(Undotted(d)) && HasLetter(Undotted(d))
  {
    hide AreLabels;
    var u := Undotted(d);
    ScanIff(u, 0, 0, '.', false);
    assert u[0..] == u;
  }
}
