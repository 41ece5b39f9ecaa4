// How the loaders name their block files: the container's name, a dot, and a
// number padded to four digits; the index of a map is name.index, the size of
// a vector name.size.
module FileNames {
  function Digit(n: nat): (c: char)
    requires n < 10
    ensures '0' <= c <= '9'
  {
    '0' + n as char
  }

  // std::to_string of an unsigned number.
  function Decimal(n: nat): (s: string)
    ensures s != [] && forall c | c in s :: '0' <= c <= '9'
  {
    if n < 10 then [Digit(n)] else Decimal(n / 10) + [Digit(n % 10)]
  }

  function Padded(s: string): (r: string)
    ensures s != [] ==> r != []
    ensures (forall c | c in s :: '0' <= c <= '9') ==> forall c | c in r :: '0' <= c <= '9'
    decreases 4 - |s|
  {
    if |s| < 4 then Padded("0" + s) else s
  }

  function BlockName(name: string, n: nat): string {
    name + "." + Padded(Decimal(n))
  }

  predicate AreDigits(s: string) {
    forall i | 0 <= i < |s| :: '0' <= s[i] <= '9'
  }

  // The number that decimal digits are read as.
  function Number(s: string): (n: nat)
    requires AreDigits(s)
  {
    if s == [] then 0 else Number(s[..|s| - 1]) * 10 + (s[|s| - 1] as int - '0' as int)
  }

  lemma {:induction false} DecimalReads(n: nat)
    ensures AreDigits(Decimal(n)) && Number(Decimal(n)) == n
    ensures |Decimal(n)| > 1 ==> Decimal(n)[0] != '0'
  {
    if n >= 10 {
      DecimalReads(n / 10);
      var d := Decimal(n / 10);
      assert (d + [Digit(n % 10)])[..|d|] == d;
      if |d| == 1 {
        assert d == [Digit(n / 10)];
      }
    } else {
      assert [Digit(n)][..0] == [];
    }
  }

  lemma {:induction false} NumberBehindZero(s: string)
    requires AreDigits(s)
    ensures AreDigits("0" + s) && Number("0" + s) == Number(s)
  {
    var t := "0" + s;
    if s == [] {
      assert t[..0] == [];
    } else {
      assert s == s[..|s| - 1] + [s[|s| - 1]];
      assert t[..|t| - 1] == "0" + s[..|s| - 1];
      NumberBehindZero(s[..|s| - 1]);
    }
  }

  // Padding gives at least four digits of the same number, and adds none when
  // there are as many already.
  lemma {:induction false} PaddedReads(s: string)
    requires AreDigits(s)
    ensures |Padded(s)| == (if |s| < 4 then 4 else |s|) && AreDigits(Padded(s)) && Number(Padded(s)) == Number(s)
    ensures |s| >= 4 ==> Padded(s) == s
    decreases 4 - |s|
  {
    if |s| < 4 {
      NumberBehindZero(s);
      PaddedReads("0" + s);
    }
  }

  // A block's name is the container's, a dot and the padded number, and names
  // one number only.
  lemma BlockNameReads(name: string, n: nat)
    ensures var s := BlockName(name, n);
      && |s| >= |name| + 5 && s[..|name|] == name && s[|name|] == '.'
      && AreDigits(s[|name| + 1..])
      && Number(s[|name| + 1..]) == n
      && (n < 10000 ==> |s| == |name| + 5)
  {
    hide Padded, Decimal;
    DecimalReads(n);
    PaddedReads(Decimal(n));
    var p := Padded(Decimal(n));
    assert (name + "." + p)[|name| + 1..] == p;
    if n < 10000 {
      FourDigits(n);
    }
  }

  lemma FourDigits(n: nat)
    requires n < 10000
    ensures |Decimal(n)| <= 4
  {
    if n >= 1000 {
      assert |Decimal(n / 1000)| == 1;
      assert |Decimal(n / 100)| == 2;
      assert |Decimal(n / 10)| == 3;
    } else if n >= 100 {
      assert |Decimal(n / 100)| == 1;
      assert |Decimal(n / 10)| == 2;
    } else if n >= 10 {
      assert |Decimal(n / 10)| == 1;
    }
  }

  lemma BlockNameTells(name: string, m: nat, n: nat)
    ensures BlockName(name, m) == BlockName(name, n) <==> m == n
  {
    hide BlockName;
    BlockNameReads(name, m);
    BlockNameReads(name, n);
  }

  // The file kept beside the blocks has a name that no block has.
  lemma BesideBlocks(name: string, n: nat, beside: string)
    requires beside != [] && !('0' <= beside[0] <= '9')
    ensures BlockName(name, n) != name + "." + beside
  {
    var p := Padded(Decimal(n));
    assert BlockName(name, n)[|name| + 1] == p[0] && p[0] in p;
    assert (name + "." + beside)[|name| + 1] == beside[0];
  }

  datatype Suffix = Plain | Shadow | Marks | ShadowMarks {
    function Text(): string {
      match this
      case Plain => ""
      case Shadow => ".tr"
      case Marks => ".m"
      case ShadowMarks => ".m.tr"
    }
  }

  // The four files of a block and those of another block are eight different
  // files, so a block can be treated as a record of four files.
  lemma ShadowNames(name: string, m: nat, n: nat, s: Suffix, t: Suffix)
    requires BlockName(name, m) + s.Text() == BlockName(name, n) + t.Text()
    ensures BlockName(name, m) == BlockName(name, n) && s == t
  {
    hide Padded, Decimal;
    var a, b := Padded(Decimal(m)), Padded(Decimal(n));
    var x, y := a + s.Text(), b + t.Text();
    assert name + "." + x == BlockName(name, m) + s.Text();
    assert name + "." + y == BlockName(name, n) + t.Text();
    assert x == (name + "." + x)[|name| + 1..] && y == (name + "." + y)[|name| + 1..];
    FirstDot(a, s.Text(), b, t.Text());
  }

  lemma FirstDot(a: string, s: string, b: string, t: string)
    requires '.' !in a && '.' !in b && a + s == b + t
    requires (s == "" || s[0] == '.') && (t == "" || t[0] == '.')
    ensures a == b && s == t
  {
    DotAt(a, s);
    DotAt(b, t);
    assert |a| == |b|;
    assert a == (a + s)[..|a|] && b == (b + t)[..|b|];
    assert s == (a + s)[|a|..] && t == (b + t)[|b|..];
  }

  lemma DotAt(a: string, s: string)
    requires '.' !in a && (s == "" || s[0] == '.')
    ensures forall i | 0 <= i < |a| :: (a + s)[i] != '.'
    ensures if s == "" then |a + s| == |a| else (a + s)[|a|] == '.'
  {
  }
}
