/**
 * Where a file with a given id lives: the id in hexadecimal, padded to whole groups of three
 * digits, one directory per group, the last group naming the file.
 */
module FilePaths {
  import opened Outcomes

  type Digit = d: nat | d < 16

  function HexChar(d: Digit): (c: char)
    ensures '0' <= c <= '9' || 'a' <= c <= 'f'
  {
    "0123456789abcdef"[d]
  }

  /** The digit a character stands for, in either case. */
  function DigitOf(c: char): (d: Option<Digit>)
  {
    if '0' <= c <= '9' then Some((c - '0') as int)
    else if 'a' <= c <= 'f' then Some((c - 'a') as int + 10)
    else if 'A' <= c <= 'F' then Some((c - 'A') as int + 10)
    else None
  }

  lemma HexCharOrder(a: Digit, b: Digit)
    ensures DigitOf(HexChar(a)) == Some(a)
    ensures a < b <==> HexChar(a) < HexChar(b)
    ensures a == b <==> HexChar(a) == HexChar(b)
  {
  }

  function Hex(v: nat): (s: string)
    ensures |s| >= 1
  {
    if v < 16 then [HexChar(v)] else Hex(v / 16) + [HexChar(v % 16)]
  }

  function Padding(n: nat): (s: string)
    ensures |s| == n
  {
    seq(n, _ => '0')
  }

  function PaddedHex(v: nat): (s: string)
    ensures |s| % 3 == 0 && |s| >= 3
  {
    var s := Hex(v);
    Padding((3 - |s| % 3) % 3) + s
  }

  /** Three hexadecimal digits. */
  function Group(v: nat): (s: string)
    requires v < 4096
    ensures |s| == 3
  {
    [HexChar(v / 256), HexChar(v / 16 % 16), HexChar(v % 16)]
  }

  /** The groups of an id: its digits to the base 4096, highest first. */
  function Groups(v: nat): (g: seq<string>)
    ensures |g| >= 1 && forall i :: 0 <= i < |g| ==> |g[i]| == 3
  {
    if v < 4096 then [Group(v)] else Groups(v / 4096) + [Group(v % 4096)]
  }

  function Joined(g: seq<string>): string {
    if g == [] then "" else Joined(g[..|g| - 1]) + g[|g| - 1]
  }

  /** The three digits of a number below 4096. */
  lemma GroupDigits(v: nat)
    requires v < 4096
    ensures v / 256 < 16 && v == v / 256 * 256 + v / 16 % 16 * 16 + v % 16
    ensures v < 256 ==> v / 256 == 0 && v / 16 % 16 == v / 16
    ensures v < 16 ==> v / 16 == 0 && v % 16 == v
    ensures v / 16 / 16 == v / 256
  {
  }

  /** The digits of the last group of a number are its last three digits. */
  lemma LastDigits(v: nat)
    ensures var r := v % 4096;
            && v / 16 / 16 / 16 == v / 4096
            && v % 16 == r % 16 && v / 16 % 16 == r / 16 % 16 && v / 16 / 16 % 16 == r / 256
  {
    var q, r := v / 4096, v % 4096;
    assert v == q * 4096 + r;
    assert v / 16 == q * 256 + r / 16;
    assert v / 16 / 16 == q * 16 + r / 256;
  }

  lemma HexStep(v: nat)
    requires v >= 16
    ensures Hex(v) == Hex(v / 16) + [HexChar(v % 16)]
  {
  }

  /** Padding the hexadecimal form is the same as writing out the groups. */
  lemma {:induction false} PaddedIsGroups(v: nat)
    ensures PaddedHex(v) == Joined(Groups(v))
  {
    hide Hex, HexChar, Group, Padding;
    if v < 4096 {
      SmallHex(v);
      JoinedOne(Group(v));
    } else {
      PaddedIsGroups(v / 4096);
      HexByGroup(v);
      JoinedSnoc(Groups(v / 4096), Group(v % 4096));
      var s := Hex(v / 4096);
      PadFront(Padding((3 - |s| % 3) % 3), s, Group(v % 4096));
    }
  }

  lemma PadFront(a: string, b: string, c: string)
    ensures a + (b + c) == (a + b) + c
  {
  }

  lemma JoinedOne(s: string)
    ensures Joined([s]) == s
  {
    assert [s][..0] == [];
    assert Joined([s]) == "" + s;
  }

  lemma JoinedSnoc(g: seq<string>, s: string)
    ensures Joined(g + [s]) == Joined(g) + s
  {
    assert (g + [s])[..|g|] == g;
  }

  lemma SmallHex(v: nat)
    requires v < 4096
    ensures PaddedHex(v) == Group(v)
  {
    GroupDigits(v);
    assert HexChar(0) == '0';
    hide HexChar;
    if v < 16 {
      assert PaddedHex(v) == "00" + [HexChar(v)];
    } else if v < 256 {
      assert Hex(v) == [HexChar(v / 16)] + [HexChar(v % 16)];
      assert PaddedHex(v) == "0" + Hex(v);
    } else {
      assert Hex(v / 16 / 16) == [HexChar(v / 256)];
      HexStep(v / 16);
      HexStep(v);
      assert PaddedHex(v) == "" + Hex(v);
    }
  }

  lemma HexByGroup(v: nat)
    requires v >= 4096
    ensures Hex(v) == Hex(v / 4096) + Group(v % 4096)
  {
    hide HexChar, Hex;
    LastDigits(v);
    HexStep(v / 16 / 16);
    HexStep(v / 16);
    HexStep(v);
    AppendThree(Hex(v / 4096), HexChar(v % 4096 / 256), HexChar(v % 4096 / 16 % 16), HexChar(v % 16));
  }

  lemma AppendThree(s: string, a: char, b: char, c: char)
    ensures s + [a] + [b] + [c] == s + [a, b, c]
  {
  }

  // ----- Making paths -----

  function WithExtension(name: string, extension: string): string {
    if extension == "" then name else name + "." + extension
  }

  /** The path of a file below the queue's folder. */
  function PathOf(v: nat, extension: string): (path: seq<string>)
    ensures |path| == |Groups(v)|
  {
    var g := Groups(v);
    g[..|g| - 1] + [WithExtension(g[|g| - 1], extension)]
  }

  method ToFilePath(v: nat, extension: string) returns (path: seq<string>)
    ensures path == PathOf(v, extension)
  {
    var remaining := PaddedHex(v);
    ghost var g := Groups(v);
    PaddedIsGroups(v);
    path := [];
    JoinedFront(g);
    hide Joined, Groups, PaddedHex;
    while |remaining| > 3
      invariant |path| < |g| && path == g[..|path|] && remaining == Joined(g[|path|..])
      decreases |remaining|
    {
      ghost var rest := g[|path|..];
      FirstOfJoined(rest);
      assert rest[1..] == g[|path| + 1..];
      path := path + [remaining[0..3]];
      remaining := remaining[3..];
    }
    ghost var rest := g[|path|..];
    FirstOfJoined(rest);
    path := path + [WithExtension(remaining, extension)];
  }

  lemma FirstOfJoined(g: seq<string>)
    requires g != [] && AllThree(g)
    ensures |Joined(g)| == 3 * |g| && Joined(g)[0..3] == g[0] && Joined(g)[3..] == Joined(g[1..])
    ensures |g| == 1 ==> Joined(g) == g[0]
  {
    JoinedHead(g);
    JoinedLength(g);
    if |g| == 1 {
      assert g == [g[0]];
      JoinedOne(g[0]);
    }
  }

  lemma JoinedFront(g: seq<string>)
    ensures g[..0] == [] && g[0..] == g
  {
  }

  ghost predicate AllThree(g: seq<string>) {
    forall i :: 0 <= i < |g| ==> |g[i]| == 3
  }

  lemma {:induction false} JoinedLength(g: seq<string>)
    requires AllThree(g)
    ensures |Joined(g)| == 3 * |g|
  {
    if g != [] {
      JoinedLength(g[..|g| - 1]);
    }
  }

  lemma {:induction false} JoinedHead(g: seq<string>)
    requires g != []
    ensures Joined(g) == g[0] + Joined(g[1..])
  {
    if |g| == 1 {
      assert g[..0] == [] && g[1..] == [];
      assert Joined(g) == "" + g[0] == g[0] + "";
    } else {
      var front := g[..|g| - 1];
      JoinedHead(front);
      assert front[1..] == g[1..][..|g| - 2];
      assert Joined(g) == g[0] + Joined(front[1..]) + g[|g| - 1] == g[0] + (Joined(front[1..]) + g[|g| - 1]);
    }
  }

  // ----- Reading paths -----

  /** The number hexadecimal digits stand for. */
  function HexValue(s: string): Option<nat> {
    if s == "" then Some(0)
    else
      match HexValue(s[..|s| - 1])
      case None => None
      case Some(v) =>
        match DigitOf(s[|s| - 1])
        case None => None
        case Some(d) => Some(16 * v + d)
  }

  /** A leading zero, put there to make the number of digits even, changes nothing. */
  function FromHexDigits(s: string): Option<nat> {
    HexValue(if |s| % 2 == 1 then "0" + s else s)
  }

  lemma {:induction false} LeadingZero(s: string)
    ensures HexValue("0" + s) == HexValue(s)
  {
    if s != "" {
      LeadingZero(s[..|s| - 1]);
      assert ("0" + s)[..|s|] == "0" + s[..|s| - 1];
    } else {
      assert ("0" + s)[..0] == "";
    }
  }

  function Stripped(name: string, suffix: string): string {
    if |suffix| <= |name| && name[|name| - |suffix|..] == suffix then name[..|name| - |suffix|] else name
  }

  /** The id a path stands for: all components put together, the extension left out. */
  method PathToId(path: seq<string>, extension: string) returns (id: Option<nat>)
    ensures id == IdOf(path, extension)
  {
    var digits := "";
    for i := 0 to |path|
      invariant digits == AllStripped(path[..i], "." + extension)
    {
      assert path[..i + 1][..i] == path[..i];
      digits := digits + Stripped(path[i], "." + extension);
    }
    assert path[..|path|] == path;
    id := FromHexDigits(digits);
  }

  function AllStripped(path: seq<string>, suffix: string): string {
    if path == [] then "" else AllStripped(path[..|path| - 1], suffix) + Stripped(path[|path| - 1], suffix)
  }

  function IdOf(path: seq<string>, extension: string): Option<nat> {
    FromHexDigits(AllStripped(path, "." + extension))
  }

  ghost predicate NoDots(g: seq<string>) {
    forall i :: 0 <= i < |g| ==> '.' !in g[i]
  }

  lemma {:induction false} GroupsHaveNoDots(v: nat)
    ensures NoDots(Groups(v))
  {
    if v >= 4096 {
      GroupsHaveNoDots(v / 4096);
    }
  }

  lemma NothingToStrip(name: string, suffix: string)
    requires '.' !in name && '.' in suffix
    ensures Stripped(name, suffix) == name
  {
    if |suffix| <= |name| {
      var tail := name[|name| - |suffix|..];
      assert forall i :: 0 <= i < |tail| ==> tail[i] == name[|name| - |suffix| + i];
      assert '.' !in tail;
    }
  }

  lemma {:induction false} NothingStripped(g: seq<string>, suffix: string)
    requires NoDots(g) && '.' in suffix
    ensures AllStripped(g, suffix) == Joined(g)
  {
    if g != [] {
      NothingStripped(g[..|g| - 1], suffix);
      NothingToStrip(g[|g| - 1], suffix);
    }
  }

  lemma ExtensionStripped(name: string, extension: string)
    requires '.' !in name
    ensures Stripped(WithExtension(name, extension), "." + extension) == name
  {
    if extension == "" {
      NothingToStrip(name, "." + extension);
    } else {
      assert name + "." + extension == name + ("." + extension);
    }
  }

  lemma {:induction false} HexValueSnoc(s: string, d: Digit)
    ensures HexValue(s + [HexChar(d)]) == if HexValue(s).Some? then Some(16 * HexValue(s).value + d) else None
  {
    hide HexChar, DigitOf;
    HexCharOrder(d, d);
    var t := s + [HexChar(d)];
    assert t[..|t| - 1] == s && t[|t| - 1] == HexChar(d);
  }

  lemma HexValueGroup(s: string, v: nat)
    requires v < 4096 && HexValue(s).Some?
    ensures HexValue(s + Group(v)) == Some(4096 * HexValue(s).value + v)
  {
    hide HexChar, HexValue;
    GroupDigits(v);
    var a, b, c := v / 256, v / 16 % 16, v % 16;
    AppendThree(s, HexChar(a), HexChar(b), HexChar(c));
    HexValueSnoc(s, a);
    HexValueSnoc(s + [HexChar(a)], b);
    HexValueSnoc(s + [HexChar(a)] + [HexChar(b)], c);
  }

  lemma {:induction false} GroupsValue(v: nat)
    ensures HexValue(Joined(Groups(v))) == Some(v)
  {
    hide Group;
    if v < 4096 {
      HexValueGroup("", v);
      JoinedOne(Group(v));
      assert "" + Group(v) == Group(v);
    } else {
      GroupsValue(v / 4096);
      JoinedSnoc(Groups(v / 4096), Group(v % 4096));
      HexValueGroup(Joined(Groups(v / 4096)), v % 4096);
    }
  }

  /** Reading the path made for an id gives the id. */
  lemma PathRoundTrip(v: nat, extension: string)
    ensures IdOf(PathOf(v, extension), extension) == Some(v)
  {
    hide HexValue, Groups;
    var g, path, suffix := Groups(v), PathOf(v, extension), "." + extension;
    GroupsHaveNoDots(v);
    assert path[..|path| - 1] == g[..|g| - 1];
    NothingStripped(g[..|g| - 1], suffix);
    ExtensionStripped(g[|g| - 1], extension);
    GroupsValue(v);
    LeadingZero(Joined(g));
  }

  /** Different ids have different paths. */
  lemma PathsDiffer(v: nat, w: nat, extension: string)
    requires PathOf(v, extension) == PathOf(w, extension)
    ensures v == w
  {
    PathRoundTrip(v, extension);
    PathRoundTrip(w, extension);
  }

  // ----- Order -----

  /** Strings in the order of a directory listing. */
  predicate StringLess(s: string, t: string) {
    t != "" && (s == "" || s[0] < t[0] || (s[0] == t[0] && StringLess(s[1..], t[1..])))
  }

  /** Paths of the same depth, component by component. */
  predicate PathLess(p: seq<string>, q: seq<string>) {
    p != [] && q != [] && (StringLess(p[0], q[0]) || (p[0] == q[0] && PathLess(p[1..], q[1..])))
  }

  lemma ThreeLess(a: char, b: char, c: char, d: char, e: char, f: char)
    ensures StringLess([a, b, c], [d, e, f]) <==> a < d || (a == d && (b < e || (b == e && c < f)))
  {
    assert [a, b, c][1..] == [b, c] && [d, e, f][1..] == [e, f];
    assert [b, c][1..] == [c] && [e, f][1..] == [f] && [c][1..] == "" && [f][1..] == "";
    assert StringLess([c], [f]) <==> c < f;
    assert StringLess([b, c], [e, f]) <==> b < e || (b == e && c < f);
  }

  lemma GroupOrder(a: nat, b: nat)
    requires a < 4096 && b < 4096
    ensures StringLess(Group(a), Group(b)) <==> a < b
    ensures Group(a) == Group(b) <==> a == b
  {
    hide HexChar, StringLess, DigitOf;
    GroupDigits(a);
    GroupDigits(b);
    HexCharOrder(a / 256, b / 256);
    HexCharOrder(a / 16 % 16, b / 16 % 16);
    HexCharOrder(a % 16, b % 16);
    ThreeLess(HexChar(a / 256), HexChar(a / 16 % 16), HexChar(a % 16), HexChar(b / 256), HexChar(b / 16 % 16), HexChar(b % 16));
    assert Group(a) == Group(b) ==> Group(a)[0] == Group(b)[0] && Group(a)[1] == Group(b)[1] && Group(a)[2] == Group(b)[2];
  }

  lemma {:induction false} PathLessSnoc(p: seq<string>, q: seq<string>, a: string, b: string)
    requires |p| == |q|
    ensures PathLess(p + [a], q + [b]) <==> PathLess(p, q) || (p == q && StringLess(a, b))
  {
    if p == [] {
      assert [a][1..] == [] && [b][1..] == [];
    } else {
      assert (p + [a])[1..] == p[1..] + [a] && (q + [b])[1..] == q[1..] + [b];
      PathLessSnoc(p[1..], q[1..], a, b);
      assert p == q <==> p[0] == q[0] && p[1..] == q[1..];
    }
  }

  lemma {:induction false} GroupsInjective(v: nat, w: nat)
    requires Groups(v) == Groups(w)
    ensures v == w
  {
    GroupsValue(v);
    GroupsValue(w);
  }

  lemma {:induction false} MoreGroups(v: nat, w: nat)
    requires v <= w
    ensures |Groups(v)| <= |Groups(w)|
  {
    if v >= 4096 {
      MoreGroups(v / 4096, w / 4096);
    }
  }

  /** Numeric order is the order of the groups: fewer first, and with as many the order of the components. */
  lemma {:induction false} OrderOfGroups(v: nat, w: nat)
    ensures v < w <==>
              |Groups(v)| < |Groups(w)| || (|Groups(v)| == |Groups(w)| && PathLess(Groups(v), Groups(w)))
    decreases v + w
  {
    if v <= w {
      MoreGroups(v, w);
    } else {
      MoreGroups(w, v);
    }
    if |Groups(v)| == |Groups(w)| {
      if v < 4096 {
        GroupOrder(v, w);
        assert [Group(v)][1..] == [] && [Group(w)][1..] == [];
      } else {
        OrderOfGroups(v / 4096, w / 4096);
        GroupOrder(v % 4096, w % 4096);
        PathLessSnoc(Groups(v / 4096), Groups(w / 4096), Group(v % 4096), Group(w % 4096));
        if Groups(v / 4096) == Groups(w / 4096) {
          GroupsInjective(v / 4096, w / 4096);
        }
      }
    }
  }

  lemma {:induction false} NotLessThanItself(s: string)
    ensures !StringLess(s, s)
  {
    if s != "" {
      NotLessThanItself(s[1..]);
    }
  }

  /** A common ending changes nothing about the order of strings of the same length. */
  lemma {:induction false} SameEnding(s: string, t: string, end: string)
    requires |s| == |t|
    ensures StringLess(s + end, t + end) <==> StringLess(s, t)
  {
    if s == "" {
      NotLessThanItself(end);
      assert s + end == end && t + end == end;
    } else {
      SameEnding(s[1..], t[1..], end);
      assert (s + end)[1..] == s[1..] + end && (t + end)[1..] == t[1..] + end;
    }
  }

  lemma ExtensionKeepsOrder(s: string, t: string, extension: string)
    requires |s| == |t|
    ensures StringLess(WithExtension(s, extension), WithExtension(t, extension)) <==> StringLess(s, t)
  {
    if extension != "" {
      SameEnding(s, t, "." + extension);
      assert s + "." + extension == s + ("." + extension) && t + "." + extension == t + ("." + extension);
    }
  }

  lemma SampleDigits()
    ensures HexChar(0) == '0' && HexChar(5) == '5' && HexChar(10) == 'a' && HexChar(11) == 'b'
    ensures HexChar(12) == 'c' && HexChar(13) == 'd' && HexChar(14) == 'e'
  {}

  lemma SampleGroups()
    ensures Group(0x5) == ['0', '0', '5'] && Group(0xab) == ['0', 'a', 'b'] && Group(0xcde) == ['c', 'd', 'e']
  {
    hide HexChar;
    SampleDigits();
  }

  lemma TwoGroups(v: nat, w: nat, extension: string)
    requires 0 < v < 4096 && w < 4096
    ensures PathOf(v, extension) == [WithExtension(Group(v), extension)]
    ensures PathOf(4096 * v + w, extension) == [Group(v), WithExtension(Group(w), extension)]
  {
    hide Group, WithExtension;
    assert (4096 * v + w) / 4096 == v && (4096 * v + w) % 4096 == w;
    assert Groups(v) == [Group(v)];
    assert Groups(4096 * v + w) == Groups(v) + [Group(w)];
  }

  /** Paths written out: lower-case digits, three to a component, padded in front, and the extension after a dot. */
  lemma SamplePaths()
    ensures PathOf(0x5, "") == [['0', '0', '5']]
    ensures PathOf(0xabcde, "wal") == [['0', 'a', 'b'], ['c', 'd', 'e', '.', 'w', 'a', 'l']]
  {
    hide Group, PathOf, Groups;
    SampleGroups();
    TwoGroups(0x5, 0, "");
    TwoGroups(0xab, 0xcde, "wal");
    assert 4096 * 0xab + 0xcde == 0xabcde;
    assert WithExtension(['c', 'd', 'e'], "wal") == ['c', 'd', 'e', '.', 'w', 'a', 'l'];
  }

  /** Numeric order is the order of the paths: shorter first, and with as many components the order of these. */
  lemma OrderOfPaths(v: nat, w: nat, extension: string)
    ensures var p, q := PathOf(v, extension), PathOf(w, extension);
            v < w <==> |p| < |q| || (|p| == |q| && PathLess(p, q))
  {
    hide Groups, StringLess, PathLess;
    var g, h := Groups(v), Groups(w);
    OrderOfGroups(v, w);
    if |g| == |h| {
      var n := |g| - 1;
      assert g == g[..n] + [g[n]] && h == h[..n] + [h[n]];
      PathLessSnoc(g[..n], h[..n], g[n], h[n]);
      PathLessSnoc(g[..n], h[..n], WithExtension(g[n], extension), WithExtension(h[n], extension));
      ExtensionKeepsOrder(g[n], h[n], extension);
    }
  }
}
