/** The text of the toast shown when a worker exceeds the limit. */
module Alert {
  import opened Text

  const Lead: string := "Roslyn Worker dotnet process "
  const Exceeded: string := " has exceeded the memory limit."
  const Killing: string := " Killing..."

  /** The process id between double quotes, as it appears in the text. */
  function Quoted(processId: int): string
  {
    "\"" + DecimalString(processId) + "\""
  }

  /** What follows the quoted id. */
  function Tail(shouldKill: bool): string
  {
    Exceeded + (if shouldKill then Killing else "")
  }

  /** The notification body for process `processId`. */
  function NotificationText(processId: int, shouldKill: bool): (r: string)
    ensures StartsWith(r, Lead)
    ensures IsSubstring(Quoted(processId), r)
    ensures EndsWith(r, Killing) <==> shouldKill
    ensures !shouldKill ==> EndsWith(r, Exceeded)
  {
    var q := Quoted(processId);
    var r := Lead + q + Tail(shouldKill);
    assert r[..|Lead|] == Lead;
    assert r[|Lead|..|Lead| + |q|] == q;
    assert OccursAt(r, q, |Lead|);
    assert shouldKill ==> r[|r| - |Killing|..] == Killing;
    assert !shouldKill ==> r[|r| - |Exceeded|..] == Exceeded && r[|r| - 2] == 't';
    r
  }

  /** Index of the first double quote in `s` (|s| when there is none). */
  function FirstQuote(s: string): nat
  {
    if s == [] || s[0] == '"' then 0 else 1 + FirstQuote(s[1..])
  }

  /** A quote-free head followed by a quote: the first quote sits right after the head. */
  lemma {:induction false} FirstQuoteAfter(x: string, y: string)
    requires forall i :: 0 <= i < |x| ==> x[i] != '"'
    requires y != [] && y[0] == '"'
    ensures FirstQuote(x + y) == |x|
  {
    if x != [] {
      assert (x + y)[1..] == x[1..] + y;
      FirstQuoteAfter(x[1..], y);
    } else {
      assert x + y == y;
    }
  }

  /** Splitting at the first double quote: a quote-free head is determined by the string. */
  lemma SplitAtQuote(x: string, y: string, x': string, y': string)
    requires forall i :: 0 <= i < |x| ==> x[i] != '"'
    requires forall i :: 0 <= i < |x'| ==> x'[i] != '"'
    requires y != [] && y[0] == '"' && y' != [] && y'[0] == '"'
    requires x + y == x' + y'
    ensures x == x' && y == y'
  {
    FirstQuoteAfter(x, y);
    FirstQuoteAfter(x', y');
    assert x == (x + y)[..|x|];
    assert x' == (x' + y')[..|x'|];
    assert y == (x + y)[|x|..];
    assert y' == (x' + y')[|x'|..];
  }

  /** The text is the lead, the decimal id, and a quote-initial remainder. */
  lemma TextLayout(processId: int, shouldKill: bool)
    ensures NotificationText(processId, shouldKill)
         == (Lead + "\"") + (DecimalString(processId) + ("\"" + Tail(shouldKill)))
  {
  }

  lemma {:induction false} StripCommonPrefix(h: string, x: string, y: string)
    requires h + x == h + y
    ensures x == y
  {
    assert x == (h + x)[|h|..];
    assert y == (h + y)[|h|..];
  }

  /** Different processes, or a different kill setting, never share a notification text. */
  lemma NotificationTextInjective(a: int, killA: bool, b: int, killB: bool)
    requires NotificationText(a, killA) == NotificationText(b, killB)
    ensures a == b && killA == killB
  {
    TextLayout(a, killA);
    TextLayout(b, killB);
    StripCommonPrefix(Lead + "\"", DecimalString(a) + ("\"" + Tail(killA)), DecimalString(b) + ("\"" + Tail(killB)));
    DecimalHasNoQuote(a);
    DecimalHasNoQuote(b);
    SplitAtQuote(DecimalString(a), "\"" + Tail(killA), DecimalString(b), "\"" + Tail(killB));
    DecimalRoundTrip(a);
    DecimalRoundTrip(b);
    assert |Tail(killA)| == |Tail(killB)|;
  }
}
