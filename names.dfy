/** Turning a DNS question into the name and type label the responder reasons about. */
module Names {
  import opened Message
  import opened Collaborators

  /** Go's `unicode.IsSpace`: the Latin-1 spaces and the Unicode White_Space runes above them. */
  predicate IsSpace(c: char) {
    var n := c as int;
    || (0x09 <= n <= 0x0d) || n == 0x20 || n == 0x85 || n == 0xa0
    || n == 0x1680 || (0x2000 <= n <= 0x200a) || n == 0x2028 || n == 0x2029
    || n == 0x202f || n == 0x205f || n == 0x3000
  }

  predicate AllSpace(s: string) {
    forall k :: 0 <= k < |s| ==> IsSpace(s[k])
  }

  /** The index of the first non-space rune of `s` at or after `i` (`|s|` if none). */
  function SkipSpace(s: string, i: nat): (r: nat)
    requires i <= |s|
    ensures i <= r <= |s|
    ensures forall k :: i <= k < r ==> IsSpace(s[k])
    ensures r < |s| ==> !IsSpace(s[r])
    decreases |s| - i
  {
    if i < |s| && IsSpace(s[i]) then SkipSpace(s, i + 1) else i
  }

  /** The end of `s[lo..j]` once its trailing spaces are dropped. */
  function SkipSpaceBack(s: string, lo: nat, j: nat): (r: nat)
    requires lo <= j <= |s|
    ensures lo <= r <= j
    ensures forall k :: r <= k < j ==> IsSpace(s[k])
    ensures r > lo ==> !IsSpace(s[r - 1])
    decreases j
  {
    if j > lo && IsSpace(s[j - 1]) then SkipSpaceBack(s, lo, j - 1) else j
  }

  /**
   * Go's `strings.TrimSpace`: `s` with its leading and trailing white space
   * removed; it starts and ends with a non-space rune unless it is empty,
   * and it is empty exactly when `s` is all white space.
   */
  function TrimSpace(s: string): (r: string)
    ensures |r| <= |s|
    ensures r == [] || (!IsSpace(r[0]) && !IsSpace(r[|r| - 1]))
    ensures r == [] <==> AllSpace(s)
  {
    var i := SkipSpace(s, 0);
    var j := SkipSpaceBack(s, i, |s|);
    s[i..j]
  }

  /** What `TrimSpace` removes is white space only: its result is `s` between two all-space margins. */
  lemma TrimSpaceIsSlice(s: string)
    ensures var r := TrimSpace(s);
      exists k :: 0 <= k <= |s| - |r| && r == s[k..k + |r|] && AllSpace(s[..k]) && AllSpace(s[k + |r|..])
  {
    var i := SkipSpace(s, 0);
    var j := SkipSpaceBack(s, i, |s|);
    assert AllSpace(s[..i]) && AllSpace(s[j..]);
    assert TrimSpace(s) == s[i..j];
  }

  /** Go's `strings.TrimSuffix(s, ".")`: drops one trailing dot, if there is one. */
  function TrimSuffixDot(s: string): (r: string)
    ensures r + "." == s || (r == s && (s == [] || s[|s| - 1] != '.'))
  {
    if |s| > 0 && s[|s| - 1] == '.' then s[..|s| - 1] else s
  }

  /**
   * A host name with surrounding white space trimmed and then at most one
   * trailing dot removed.
   */
  function NormalizedName(host: string): (r: string)
    ensures r + "." == TrimSpace(host) || (r == TrimSpace(host) && (r == [] || r[|r| - 1] != '.'))
    ensures r == [] || !IsSpace(r[0])
    ensures |r| <= |host|
  {
    TrimSuffixDot(TrimSpace(host))
  }

  /**
   * The name the policy is asked about. A NetBIOS question (type 32) is
   * decoded by the NetBIOS codec; any other question's name is normalised,
   * falling back to the name as sent when normalisation leaves nothing.
   */
  function NormalizedNameFromQuery(q: Question, lib: Library): (r: string)
    ensures q.qtype == TypeNetBios ==> r == lib.decodeNetBIOSHostname(q.name)
    ensures q.qtype != TypeNetBios ==>
      (r == NormalizedName(q.name) && r != []) || (r == q.name && NormalizedName(q.name) == [])
    ensures q.qtype != TypeNetBios && q.name != [] ==> r != []
  {
    if q.qtype == TypeNetBios then
      lib.decodeNetBIOSHostname(q.name)
    else
      var name := NormalizedName(q.name);
      if name == [] then q.name else name
  }

  /**
   * The label logged with a question: the NetBIOS service label for type
   * 32, the library's record type mnemonic otherwise.
   */
  function QueryType(q: Question, lib: Library): (r: string)
    ensures q.qtype == TypeNetBios ==> r == lib.decodeNetBIOSSuffix(q.name)
    ensures q.qtype != TypeNetBios ==> r == lib.typeString(q.qtype)
  {
    if q.qtype == TypeNetBios then lib.decodeNetBIOSSuffix(q.name) else lib.typeString(q.qtype)
  }

  /** A fully qualified name loses its trailing dot. */
  lemma NormalizeStripsTrailingDot()
    ensures NormalizedName("host.local.") == "host.local"
  {
    var s := "host.local.";
    assert SkipSpace(s, 0) == 0;
    assert SkipSpaceBack(s, 0, |s|) == |s|;
  }

  /** Only one trailing dot is removed. */
  lemma NormalizeStripsOneDot()
    ensures NormalizedName("host..") == "host."
  {
    var s := "host..";
    assert SkipSpace(s, 0) == 0;
    assert SkipSpaceBack(s, 0, |s|) == |s|;
  }

  /** White space is trimmed before the dot is looked for. */
  lemma NormalizeTrimsSpaceFirst()
    ensures NormalizedName(" host. \t") == "host"
  {
    var s := " host. \t";
    assert SkipSpace(s, 1) == 1;
    assert SkipSpace(s, 0) == 1;
    assert SkipSpaceBack(s, 1, 6) == 6;
    assert SkipSpaceBack(s, 1, 8) == 6;
    assert s[1..6] == "host.";
  }

  /** A question for the root name keeps its name rather than becoming empty. */
  lemma RootNameFallsBack(lib: Library)
    ensures NormalizedNameFromQuery(Question(".", TypeA, ClassINET), lib) == "."
  {
  }
}
