/**
 * The host validator `_is_valid_hostname` (import_os.py): a string is a valid
 * host when the `ipaddress` library parses it as an IP address, or when it is
 * at most 253 characters long and every `.`-separated label (after one
 * trailing `.` is dropped) matches `^(?!-)[A-Za-z0-9-]{1,63}(?<!-)$` under
 * Python's `re.match`.
 */
module Hostname {

  const MAX_NAME_LENGTH := 253
  const MAX_LABEL_LENGTH := 63

  // ---------------------------------------------------------------------------
  // str.split and str.join

  /** Python's `s.split(sep)`: the pieces between occurrences of `sep`. */
  function Split(s: string, sep: char): (parts: seq<string>)
    ensures |parts| >= 1
    ensures forall i :: 0 <= i < |parts| ==> sep !in parts[i]
  {
    if s == [] then [[]]
    else
      var rest := Split(s[1..], sep);
      if s[0] == sep then [[]] + rest
      else [[s[0]] + rest[0]] + rest[1..]
  }

  /** Python's `sep.join(parts)`. */
  function Join(parts: seq<string>, sep: char): (r: string)
  {
    if |parts| == 0 then []
    else if |parts| == 1 then parts[0]
    else parts[0] + [sep] + Join(parts[1..], sep)
  }

  /** Joining the pieces of a split gives the string back. */
  lemma {:induction false} JoinSplit(s: string, sep: char)
    ensures Join(Split(s, sep), sep) == s
  {
    if s != [] {
      var rest := Split(s[1..], sep);
      JoinSplit(s[1..], sep);
      if s[0] == sep {
        assert Split(s, sep) == [[]] + rest;
        assert ([[]] + rest)[1..] == rest;
      } else {
        var parts := [[s[0]] + rest[0]] + rest[1..];
        assert Split(s, sep) == parts;
        if |rest| == 1 {
          assert Join(parts, sep) == [s[0]] + rest[0];
        } else {
          assert parts[1..] == rest[1..];
          assert Join(parts, sep) == [s[0]] + rest[0] + [sep] + Join(rest[1..], sep);
          assert Join(rest, sep) == rest[0] + [sep] + Join(rest[1..], sep);
        }
        assert s == [s[0]] + s[1..];
      }
    }
  }

  /** Splitting a separator-free prefix glued to `t` extends the first piece of `t`. */
  lemma {:induction false} SplitPrefix(p: string, t: string, sep: char)
    requires sep !in p
    ensures Split(p + t, sep) == [p + Split(t, sep)[0]] + Split(t, sep)[1..]
  {
    var st := Split(t, sep);
    if p == [] {
      assert p + t == t;
      assert p + st[0] == st[0];
      assert [st[0]] + st[1..] == st;
    } else {
      var pt := p + t;
      assert pt != [] && pt[0] == p[0] && pt[0] != sep;
      assert pt[1..] == p[1..] + t;
      SplitPrefix(p[1..], t, sep);
      var r := Split(p[1..] + t, sep);
      assert r[0] == p[1..] + st[0] && r[1..] == st[1..];
      assert Split(pt, sep) == [[pt[0]] + r[0]] + r[1..];
      assert [p[0]] + (p[1..] + st[0]) == p + st[0];
    }
  }

  /** Splitting a join of separator-free pieces gives the pieces back. */
  lemma {:induction false} SplitJoin(parts: seq<string>, sep: char)
    requires |parts| >= 1
    requires forall i :: 0 <= i < |parts| ==> sep !in parts[i]
    ensures Split(Join(parts, sep), sep) == parts
  {
    if |parts| == 1 {
      SplitPrefix(parts[0], [], sep);
      assert parts[0] + [] == parts[0];
    } else {
      var tail := Join(parts[1..], sep);
      SplitJoin(parts[1..], sep);
      assert Join(parts, sep) == parts[0] + ([sep] + tail);
      SplitPrefix(parts[0], [sep] + tail, sep);
      assert ([sep] + tail)[1..] == tail;
      assert Split([sep] + tail, sep) == [[]] + parts[1..];
      assert parts[0] + [] == parts[0];
      assert [parts[0]] + parts[1..] == parts;
    }
  }

  /** A character outside every piece and different from `sep` is not in their join. */
  lemma {:induction false} NotInJoin(parts: seq<string>, sep: char, c: char)
    requires c != sep
    requires forall i :: 0 <= i < |parts| ==> c !in parts[i]
    ensures c !in Join(parts, sep)
  {
    if |parts| > 1 {
      NotInJoin(parts[1..], sep, c);
    }
  }

  /** The join ends with the last character of the last piece when that piece is not empty. */
  lemma {:induction false} JoinLast(parts: seq<string>, sep: char)
    requires |parts| >= 1 && |parts[|parts| - 1]| >= 1
    ensures var j := Join(parts, sep); |j| >= 1 && j[|j| - 1] == parts[|parts| - 1][|parts[|parts| - 1]| - 1]
  {
    if |parts| > 1 {
      JoinLast(parts[1..], sep);
      assert parts[1..][|parts| - 2] == parts[|parts| - 1];
    }
  }

  // ---------------------------------------------------------------------------
  // The label pattern ^(?!-)[A-Za-z0-9-]{1,63}(?<!-)$ under re.match

  /** The character class `[A-Za-z0-9-]`. */
  predicate IsLabelChar(c: char) {
    ('A' <= c <= 'Z') || ('a' <= c <= 'z') || ('0' <= c <= '9') || c == '-'
  }

  /**
   * How far the greedy quantifier `[A-Za-z0-9-]{1,limit}` runs from the start
   * of `x`: the longest prefix of class characters, cut at `limit`.
   */
  function GreedyRun(x: string, limit: nat): (n: nat)
    ensures n <= limit && n <= |x|
    ensures forall i :: 0 <= i < n ==> IsLabelChar(x[i])
    ensures n < limit && n < |x| ==> !IsLabelChar(x[n])
  {
    if limit == 0 || |x| == 0 || !IsLabelChar(x[0]) then 0
    else
      var m := GreedyRun(x[1..], limit - 1);
      assert forall i :: 1 <= i < m + 1 ==> x[i] == x[1..][i - 1];
      1 + m
  }

  /** Python's `$` without MULTILINE at position `k`: the end, or just before a final newline. */
  predicate EndAnchor(x: string, k: nat) {
    k == |x| || (k + 1 == |x| && x[k] == '\n')
  }

  /**
   * Backtracking of the quantifier: try the end positions `k`, `k - 1`, ..., 1
   * and succeed at the first where the lookbehind `(?<!-)` and `$` both hold.
   */
  predicate Backtrack(x: string, k: nat)
    requires k <= |x|
    ensures Backtrack(x, k) <==> exists j :: 1 <= j <= k && x[j - 1] != '-' && EndAnchor(x, j)
  {
    1 <= k && ((x[k - 1] != '-' && EndAnchor(x, k)) || Backtrack(x, k - 1))
  }

  /** Whether `re.match` of the label pattern succeeds on `x`. */
  predicate LabelPatternMatches(x: string) {
    var n := GreedyRun(x, MAX_LABEL_LENGTH);
    !(|x| > 0 && x[0] == '-') && Backtrack(x, n)
  }

  /** A DNS label: 1 to 63 characters from `[A-Za-z0-9-]`, neither first nor last a hyphen. */
  predicate IsLabel(x: string) {
    && 1 <= |x| <= MAX_LABEL_LENGTH
    && (forall i :: 0 <= i < |x| ==> IsLabelChar(x[i]))
    && x[0] != '-'
    && x[|x| - 1] != '-'
  }

  /** A label, optionally followed by one newline (which Python's `$` lets through). */
  predicate IsLabelWithOptionalNewline(x: string) {
    IsLabel(x) || (|x| >= 1 && x[|x| - 1] == '\n' && IsLabel(x[..|x| - 1]))
  }

  /** `Backtrack` succeeds exactly when some end position up to `k` is acceptable. */
  lemma {:induction false} BacktrackWitness(x: string, k: nat) returns (j: nat)
    requires k <= |x| && Backtrack(x, k)
    ensures 1 <= j <= k && x[j - 1] != '-' && EndAnchor(x, j)
  {
    if x[k - 1] != '-' && EndAnchor(x, k) {
      j := k;
    } else {
      j := BacktrackWitness(x, k - 1);
    }
  }

  lemma {:induction false} BacktrackFrom(x: string, k: nat, j: nat)
    requires 1 <= j <= k <= |x| && x[j - 1] != '-' && EndAnchor(x, j)
    ensures Backtrack(x, k)
  {
    if j < k {
      BacktrackFrom(x, k - 1, j);
    }
  }

  /** The regular expression matches a label exactly when the label rule holds, up to one final newline. */
  lemma LabelPatternCharacterised(x: string)
    ensures LabelPatternMatches(x) <==> IsLabelWithOptionalNewline(x)
  {
    var n := GreedyRun(x, MAX_LABEL_LENGTH);
    if LabelPatternMatches(x) {
      var j := BacktrackWitness(x, n);
      if j == |x| {
        assert IsLabel(x);
      } else {
        assert x[..|x| - 1][0] == x[0];
        assert IsLabel(x[..|x| - 1]);
      }
    }
    if IsLabel(x) {
      assert n == |x|;
      BacktrackFrom(x, n, |x|);
    } else if IsLabelWithOptionalNewline(x) {
      var c := x[..|x| - 1];
      assert forall i :: 0 <= i < |c| ==> x[i] == c[i];
      assert n == |c|;
      BacktrackFrom(x, n, |c|);
    }
  }

  // ---------------------------------------------------------------------------
  // The hostname rules

  /** Drops one final `.` from the name, if it ends in one; otherwise leaves it as it is. */
  function StripTrailingDot(name: string): (r: string)
    ensures name == r || name == r + "."
    ensures (|name| > 0 && name[|name| - 1] == '.') <==> name == r + "."
  {
    if |name| > 0 && name[|name| - 1] == '.' then name[..|name| - 1] else name
  }

  /** The labels the validator checks: `name.split('.')` after the trailing dot is stripped. */
  function Labels(name: string): (labels: seq<string>)
    ensures |labels| >= 1
    ensures forall i :: 0 <= i < |labels| ==> '.' !in labels[i]
    ensures Join(labels, '.') == StripTrailingDot(name)
  {
    JoinSplit(StripTrailingDot(name), '.');
    Split(StripTrailingDot(name), '.')
  }

  /** The non-IP branch of the validator: the length limit, then `all(...)` over the labels. */
  predicate PassesHostnameRules(name: string) {
    var labels := Labels(name);
    |name| <= MAX_NAME_LENGTH && forall i :: 0 <= i < |labels| ==> LabelPatternMatches(labels[i])
  }

  /**
   * Whether `ipaddress.ip_address` accepts a string. The library is not part of
   * this model; the validator takes its verdict as a parameter.
   */
  type IpParser = string -> bool

  /** `_is_valid_hostname`: an IP literal, or a name that passes the hostname rules. */
  function IsValidHostname(name: string, parsesAsIp: IpParser): (valid: bool)
    ensures parsesAsIp(name) ==> valid
    ensures !parsesAsIp(name) && |name| > MAX_NAME_LENGTH ==> !valid
    ensures !parsesAsIp(name) ==>
      (valid <==> |name| <= MAX_NAME_LENGTH && forall i :: 0 <= i < |Labels(name)| ==> IsLabelWithOptionalNewline(Labels(name)[i]))
  {
    HostnameRulesCharacterised(name);
    parsesAsIp(name) || PassesHostnameRules(name)
  }

  /** The hostname rules are the length limit and the label rule on every label. */
  lemma HostnameRulesCharacterised(name: string)
    ensures PassesHostnameRules(name) <==>
      |name| <= MAX_NAME_LENGTH && forall i :: 0 <= i < |Labels(name)| ==> IsLabelWithOptionalNewline(Labels(name)[i])
  {
    var labels := Labels(name);
    forall i | 0 <= i < |labels| ensures LabelPatternMatches(labels[i]) <==> IsLabelWithOptionalNewline(labels[i]) {
      LabelPatternCharacterised(labels[i]);
    }
  }

  /**
   * Soundness of the rules: an accepted name is a non-empty `.`-join of labels
   * (each with an optional final newline), possibly followed by one `.`.
   */
  lemma AcceptedNameIsJoinOfLabels(name: string) returns (labels: seq<string>)
    requires PassesHostnameRules(name)
    ensures |name| <= MAX_NAME_LENGTH
    ensures |labels| >= 1
    ensures forall i :: 0 <= i < |labels| ==> IsLabelWithOptionalNewline(labels[i])
    ensures name == Join(labels, '.') || name == Join(labels, '.') + "."
  {
    labels := Labels(name);
    JoinSplit(StripTrailingDot(name), '.');
    forall i | 0 <= i < |labels| ensures IsLabelWithOptionalNewline(labels[i]) {
      LabelPatternCharacterised(labels[i]);
    }
  }

  /** A label with an optional final newline holds only class characters and the newline, and does not end in `.`. */
  lemma LabelCharsOnly(x: string)
    requires IsLabelWithOptionalNewline(x)
    ensures forall i :: 0 <= i < |x| ==> IsLabelChar(x[i]) || x[i] == '\n'
    ensures '.' !in x
    ensures |x| >= 1 && x[|x| - 1] != '.'
  {
    if !IsLabel(x) {
      var c := x[..|x| - 1];
      assert x == c + "\n";
      assert forall i :: 0 <= i < |c| ==> IsLabelChar(c[i]);
    }
  }

  /**
   * Completeness of the rules: a non-empty `.`-join of labels (each with an
   * optional final newline), with or without one trailing `.`, is accepted when
   * it is at most 253 characters long.
   */
  lemma JoinOfLabelsAccepted(labels: seq<string>, trailingDot: bool)
    requires |labels| >= 1
    requires forall i :: 0 <= i < |labels| ==> IsLabelWithOptionalNewline(labels[i])
    requires |Join(labels, '.')| + (if trailingDot then 1 else 0) <= MAX_NAME_LENGTH
    ensures PassesHostnameRules(Join(labels, '.') + (if trailingDot then "." else ""))
  {
    var joined := Join(labels, '.');
    var name := joined + (if trailingDot then "." else "");
    forall i | 0 <= i < |labels| ensures '.' !in labels[i] && |labels[i]| >= 1 && labels[i][|labels[i]| - 1] != '.' {
      LabelCharsOnly(labels[i]);
    }
    JoinLast(labels, '.');
    if trailingDot {
      assert name[..|name| - 1] == joined;
    } else {
      assert name == joined;
    }
    assert StripTrailingDot(name) == joined;
    SplitJoin(labels, '.');
    forall i | 0 <= i < |labels| ensures LabelPatternMatches(labels[i]) {
      LabelPatternCharacterised(labels[i]);
    }
  }

  /**
   * A name that passes the hostname rules holds only class characters, `.`
   * and newlines: no `:` (so IPv6 literals are valid only through the parser),
   * no space, no `_`.
   */
  lemma PassingNameCharacters(name: string, c: char)
    requires PassesHostnameRules(name)
    requires !IsLabelChar(c) && c != '.' && c != '\n'
    ensures c !in name
  {
    var labels := AcceptedNameIsJoinOfLabels(name);
    forall i | 0 <= i < |labels| ensures c !in labels[i] {
      LabelCharsOnly(labels[i]);
    }
    NotInJoin(labels, '.', c);
    assert c !in Join(labels, '.') + ".";
  }

  /** A name holding a character other than a class character, `.` or a newline is rejected. */
  lemma ForeignCharRejected(name: string, i: nat)
    requires i < |name| && !IsLabelChar(name[i]) && name[i] != '.' && name[i] != '\n'
    ensures !PassesHostnameRules(name)
  {
    if PassesHostnameRules(name) {
      PassingNameCharacters(name, name[i]);
    }
  }

  /**
   * The length limit applies before the trailing dot is dropped: a 253-character
   * join of labels is accepted, the same name with a trailing `.` is not.
   */
  lemma TrailingDotCountsTowardsLimit(labels: seq<string>)
    requires |labels| >= 1
    requires forall i :: 0 <= i < |labels| ==> IsLabelWithOptionalNewline(labels[i])
    requires |Join(labels, '.')| == MAX_NAME_LENGTH
    ensures PassesHostnameRules(Join(labels, '.'))
    ensures !PassesHostnameRules(Join(labels, '.') + ".")
  {
    JoinOfLabelsAccepted(labels, false);
    assert Join(labels, '.') + "" == Join(labels, '.');
  }

  /** A name with an empty label (`""`, `"."`, `"a..b"`, `"a.b.."`) is rejected. */
  lemma EmptyLabelRejected(name: string, i: nat)
    requires i < |Labels(name)| && Labels(name)[i] == []
    ensures !PassesHostnameRules(name)
  {
    LabelPatternCharacterised(Labels(name)[i]);
  }

  /**
   * A label of more than 63 characters is rejected, except that one final
   * newline may make it 64.
   */
  lemma LongLabelRejected(name: string, i: nat)
    requires i < |Labels(name)|
    requires || |Labels(name)[i]| > MAX_LABEL_LENGTH + 1
             || (|Labels(name)[i]| == MAX_LABEL_LENGTH + 1 && Labels(name)[i][MAX_LABEL_LENGTH] != '\n')
    ensures !PassesHostnameRules(name)
  {
    LabelPatternCharacterised(Labels(name)[i]);
  }

  /** A label that starts with a hyphen, or ends with one before an optional final newline, is rejected. */
  lemma HyphenEdgeRejected(name: string, i: nat)
    requires i < |Labels(name)| && |Labels(name)[i]| >= 1
    requires var x := Labels(name)[i];
      x[0] == '-' || x[|x| - 1] == '-' || (|x| >= 2 && x[|x| - 1] == '\n' && x[|x| - 2] == '-')
    ensures !PassesHostnameRules(name)
  {
    var x := Labels(name)[i];
    LabelPatternCharacterised(x);
    if |x| >= 2 && x[|x| - 1] == '\n' {
      assert x[..|x| - 1][0] == x[0];
    }
  }

  /** Python's `$` lets one final newline through: `"abc\n"` passes the rules. */
  lemma NewlineLabelAccepted()
    ensures PassesHostnameRules("abc\n")
  {
    var x := "abc\n";
    assert x[..3] == "abc";
    assert IsLabel("abc");
    assert IsLabelWithOptionalNewline(x);
    assert Join([x], '.') == x;
    JoinOfLabelsAccepted([x], false);
    assert x + "" == x;
  }

  /** The newline need not be at the end of the name: `"a\n.b"` passes the rules. */
  lemma InnerNewlineLabelAccepted()
    ensures PassesHostnameRules("a\n.b")
  {
    var x := "a\n";
    assert x[..1] == "a";
    assert IsLabel("a");
    assert IsLabelWithOptionalNewline(x);
    assert IsLabel("b");
    assert Join([x, "b"], '.') == "a\n.b";
    JoinOfLabelsAccepted([x, "b"], false);
    assert "a\n.b" + "" == "a\n.b";
  }

  // ---------------------------------------------------------------------------
  // The dotted-quad IPv4 literals that ipaddress.ip_address accepts

  predicate IsDecimalDigit(c: char) {
    '0' <= c <= '9'
  }

  /** The value of a string of decimal digits, most significant first. */
  function DecimalValue(s: string): (v: nat)
    requires forall i :: 0 <= i < |s| ==> IsDecimalDigit(s[i])
  {
    if s == [] then 0
    else
      assert IsDecimalDigit(s[|s| - 1]);
      DecimalValue(s[..|s| - 1]) * 10 + (s[|s| - 1] as int - '0' as int)
  }

  /** An octet: 1 to 3 ASCII digits, no leading zero, value at most 255. */
  predicate IsIPv4Octet(o: string) {
    && 1 <= |o| <= 3
    && (forall i :: 0 <= i < |o| ==> IsDecimalDigit(o[i]))
    && (o == "0" || o[0] != '0')
    && DecimalValue(o) <= 255
  }

  /** A dotted-quad IPv4 address: four octets separated by `.`. */
  predicate IsIPv4Literal(s: string) {
    var octets := Split(s, '.');
    |octets| == 4 && forall i :: 0 <= i < 4 ==> IsIPv4Octet(octets[i])
  }

  /**
   * Four `.`-separated pieces of 1 to 3 ASCII digits each. Every release of
   * `ipaddress` demands at least this of an IPv4 address given as a string;
   * releases before Python 3.9.5 also accept leading zeros, which
   * `IsIPv4Literal` refuses.
   */
  predicate IsDigitQuad(s: string) {
    var pieces := Split(s, '.');
    && |pieces| == 4
    && forall i :: 0 <= i < 4 ==>
         1 <= |pieces[i]| <= 3 && forall k :: 0 <= k < |pieces[i]| ==> IsDecimalDigit(pieces[i][k])
  }

  /**
   * What is known of `ipaddress.ip_address` on strings, in every release:
   * whatever it accepts is a digit quad (IPv4) or holds a `:` (IPv6 needs at
   * least two colons).
   */
  ghost predicate ConsistentIpParser(parsesAsIp: IpParser) {
    forall s :: parsesAsIp(s) ==> IsDigitQuad(s) || ':' in s
  }

  /** Every digit quad, leading zeros and values above 255 included, passes the hostname rules on its own. */
  lemma DigitQuadPassesHostnameRules(s: string)
    requires IsDigitQuad(s)
    ensures PassesHostnameRules(s)
  {
    var octets := Split(s, '.');
    JoinSplit(s, '.');
    forall i | 0 <= i < 4 ensures IsLabel(octets[i]) {
      assert forall k :: 0 <= k < |octets[i]| ==> IsLabelChar(octets[i][k]);
    }
    assert octets == [octets[0]] + octets[1..];
    assert octets[1..][1..] == octets[2..];
    assert octets[2..][1..] == octets[3..];
    assert Join(octets[3..], '.') == octets[3];
    assert |Join(octets[2..], '.')| == |octets[2]| + 1 + |octets[3]|;
    assert |Join(octets[1..], '.')| == |octets[1]| + 1 + |Join(octets[2..], '.')|;
    assert |Join(octets, '.')| == |octets[0]| + 1 + |Join(octets[1..], '.')|;
    JoinOfLabelsAccepted(octets, false);
    assert Join(octets, '.') + "" == s;
  }

  /** Every dotted quad passes the hostname rules on its own. */
  lemma IPv4LiteralPassesHostnameRules(s: string)
    requires IsIPv4Literal(s)
    ensures PassesHostnameRules(s)
  {
    var octets := Split(s, '.');
    assert forall i :: 0 <= i < 4 ==> IsIPv4Octet(octets[i]);
    DigitQuadPassesHostnameRules(s);
  }

  /** A dotted quad is a valid host whatever the IP parser says. */
  lemma IPv4LiteralIsValid(s: string, parsesAsIp: IpParser)
    requires IsIPv4Literal(s)
    ensures IsValidHostname(s, parsesAsIp)
  {
    IPv4LiteralPassesHostnameRules(s);
  }

  /** Without a `:`, the verdict does not depend on the IP parser: the hostname rules decide. */
  lemma ColonFreeNameDecidedByRules(name: string, parsesAsIp: IpParser)
    requires ConsistentIpParser(parsesAsIp)
    requires ':' !in name
    ensures IsValidHostname(name, parsesAsIp) <==> PassesHostnameRules(name)
  {
    if parsesAsIp(name) {
      DigitQuadPassesHostnameRules(name);
    }
  }

  /** `""` and `"."` have an empty label and fail the hostname rules. */
  lemma EmptyNameExamples()
    ensures !PassesHostnameRules("")
    ensures !PassesHostnameRules(".")
  {
    EmptyLabelRejected("", 0);
    assert StripTrailingDot(".") == "";
    EmptyLabelRejected(".", 0);
  }

  /** `"a..b"` has an empty label and fails the hostname rules. */
  lemma DoubleDotExample()
    ensures !PassesHostnameRules("a..b")
  {
    assert Join(["a", "", "b"], '.') == "a..b";
    SplitJoin(["a", "", "b"], '.');
    EmptyLabelRejected("a..b", 1);
  }

  /** `"a.b.."` keeps an empty label after one trailing dot is dropped, and fails the hostname rules. */
  lemma TwoTrailingDotsExample()
    ensures !PassesHostnameRules("a.b..")
  {
    assert StripTrailingDot("a.b..") == "a.b.";
    assert Join(["a", "b", ""], '.') == "a.b.";
    SplitJoin(["a", "b", ""], '.');
    EmptyLabelRejected("a.b..", 2);
  }

  /** `"-bad.com"` starts with a hyphen and fails the hostname rules. */
  lemma HyphenExample()
    ensures !PassesHostnameRules("-bad.com")
  {
    assert Join(["-bad", "com"], '.') == "-bad.com";
    SplitJoin(["-bad", "com"], '.');
    HyphenEdgeRejected("-bad.com", 0);
  }

  /** `"a" * 64 + ".com"` has a 64-character label and fails the hostname rules. */
  lemma LongLabelExample()
    ensures !PassesHostnameRules(seq(64, _ => 'a') + ".com")
  {
    var long := seq(64, _ => 'a');
    var name := long + ".com";
    assert Join([long, "com"], '.') == name;
    assert forall i :: 0 <= i < |long| ==> long[i] != '.';
    SplitJoin([long, "com"], '.');
    assert name[|name| - 1] == 'm';
    assert Labels(name)[0] == long;
    LongLabelRejected(name, 0);
  }

  /** `"not a valid host!!"` holds spaces and fails the hostname rules. */
  lemma SpacesExample()
    ensures !PassesHostnameRules("not a valid host!!")
  {
    ForeignCharRejected("not a valid host!!", 3);
  }

  /** `"example.com"` is accepted. */
  lemma ExampleComAccepted(parsesAsIp: IpParser)
    ensures IsValidHostname("example.com", parsesAsIp)
  {
    assert IsLabel("example") && IsLabel("com");
    assert Join(["example", "com"], '.') == "example.com";
    JoinOfLabelsAccepted(["example", "com"], false);
    assert "example.com" + "" == "example.com";
  }

  /** `"a.b."` is accepted: one trailing dot is dropped. */
  lemma TrailingDotExample(parsesAsIp: IpParser)
    ensures IsValidHostname("a.b.", parsesAsIp)
  {
    assert IsLabel("a") && IsLabel("b");
    assert Join(["a", "b"], '.') == "a.b";
    JoinOfLabelsAccepted(["a", "b"], true);
  }

  /** Four octets joined by `.` make a dotted quad. */
  lemma OctetsMakeIPv4Literal(octets: seq<string>)
    requires |octets| == 4 && forall i :: 0 <= i < 4 ==> IsIPv4Octet(octets[i])
    ensures IsIPv4Literal(Join(octets, '.'))
  {
    forall i | 0 <= i < 4 ensures '.' !in octets[i] {
      assert forall k :: 0 <= k < |octets[i]| ==> IsDecimalDigit(octets[i][k]);
    }
    SplitJoin(octets, '.');
  }

  /**
   * Four pieces of 1 to 3 digits joined by `.` form a digit quad; when one of
   * them has a leading zero, the join is not a dotted quad.
   */
  lemma DigitPiecesMakeDigitQuad(pieces: seq<string>, z: nat)
    requires |pieces| == 4
    requires forall i :: 0 <= i < 4 ==>
               1 <= |pieces[i]| <= 3 && forall k :: 0 <= k < |pieces[i]| ==> IsDecimalDigit(pieces[i][k])
    requires z < 4 && |pieces[z]| >= 2 && pieces[z][0] == '0'
    ensures IsDigitQuad(Join(pieces, '.'))
    ensures !IsIPv4Literal(Join(pieces, '.'))
  {
    forall i | 0 <= i < 4 ensures '.' !in pieces[i] {
      assert forall k :: 0 <= k < |pieces[i]| ==> IsDecimalDigit(pieces[i][k]);
    }
    SplitJoin(pieces, '.');
    assert !IsIPv4Octet(pieces[z]);
  }

  /** `"01.2.3.4"`, which releases of `ipaddress` before Python 3.9.5 accept, is a digit quad but not a dotted quad. */
  lemma LeadingZeroQuadExample()
    ensures IsDigitQuad("01.2.3.4") && !IsIPv4Literal("01.2.3.4")
  {
    var pieces := ["01", "2", "3", "4"];
    assert forall i :: 0 <= i < 4 ==>
             1 <= |pieces[i]| <= 3 && forall k :: 0 <= k < |pieces[i]| ==> IsDecimalDigit(pieces[i][k]);
    DigitPiecesMakeDigitQuad(pieces, 0);
    assert Join(pieces, '.') == "01.2.3.4";
  }

  /** `"127.0.0.1"` is a dotted quad. */
  lemma LoopbackIsIPv4()
    ensures IsIPv4Literal("127.0.0.1")
  {
    var octets := ["127", "0", "0", "1"];
    assert DecimalValue("127") == 127 by {
      assert "127"[..2] == "12";
      assert "12"[..1] == "1";
      assert "1"[..0] == "";
    }
    assert IsIPv4Octet(octets[0]);
    assert IsIPv4Octet(octets[1]) && IsIPv4Octet(octets[2]);
    assert IsIPv4Octet(octets[3]);
    OctetsMakeIPv4Literal(octets);
    assert Join(octets, '.') == "127.0.0.1";
  }

  /** `"127.0.0.1"` is a valid host whatever the parser says. */
  lemma LoopbackExample(parsesAsIp: IpParser)
    ensures IsValidHostname("127.0.0.1", parsesAsIp)
  {
    LoopbackIsIPv4();
    IPv4LiteralIsValid("127.0.0.1", parsesAsIp);
  }

  /** With a `:`, the verdict is the IP parser's alone. */
  lemma ColonNameDecidedByParser(name: string, parsesAsIp: IpParser)
    requires ':' in name
    ensures IsValidHostname(name, parsesAsIp) <==> parsesAsIp(name)
  {
    if PassesHostnameRules(name) {
      PassingNameCharacters(name, ':');
    }
  }
}
