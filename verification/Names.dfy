/** The names in the data directory and the generation numbers they carry. */
module Names {
  import opened Text

  const STOCK_PATH_SIZE: nat := 256

  datatype Kind = Snapshot | Aof

  /** A directory entry, told apart the way recovery and cleanup tell names apart. */
  datatype Name =
    | Manifest
    | ManifestTmp
    | Marker
    | InitFile
    | GenFile(kind: Kind, suffix: string)
    | Other(text: string)

  function Base(kind: Kind): string {
    match kind
    case Snapshot => "stock.snapshot"
    case Aof => "stock.aof"
  }

  function Spell(n: Name): string {
    match n
    case Manifest => "stock.manifest"
    case ManifestTmp => "stock.manifest.tmp"
    case Marker => "stock.bootstraping"
    case InitFile => "stock_init.txt"
    case GenFile(kind, suffix) => Base(kind) + "." + suffix
    case Other(text) => text
  }

  /** The entry a directory string stands for. */
  function Classify(s: string): Name {
    if s == "stock.manifest" then Manifest
    else if s == "stock.manifest.tmp" then ManifestTmp
    else if s == "stock.bootstraping" then Marker
    else if s == "stock_init.txt" then InitFile
    else if "stock.snapshot." <= s then GenFile(Snapshot, s[15..])
    else if "stock.aof." <= s then GenFile(Aof, s[10..])
    else Other(s)
  }

  /** strtoll on the suffix, with the checks that follow it. */
  function GenSuffix(suffix: string): (g: Option<nat>)
    ensures g.Some? ==> 1 <= g.value <= LLONG_MAX
  {
    match ScanInt(suffix)
    case None => None
    case Some((v, rest)) => if rest == "" && 0 < v <= LLONG_MAX then Some(v) else None
  }

  /** parse_generation_suffix, on the strings it is given. */
  function ParseGenerationSuffix(name: string, base: string): Option<nat> {
    if !(base <= name) then None
    else if |name| == |base| || name[|base|] != '.' then None
    else if |name| == |base| + 1 then None
    else GenSuffix(name[|base| + 1..])
  }

  function GenOf(n: Name): Option<nat> {
    match n
    case GenFile(kind, suffix) => GenSuffix(suffix)
    case _ => None
  }

  function GenName(kind: Kind, g: nat): Name { GenFile(kind, Dec(g)) }

  /** What ensure_bootstrap_recovery_state refuses and cleanup removes. */
  predicate IsArtifact(n: Name) { n == ManifestTmp || GenOf(n).Some? }

  /** build_data_path succeeds. */
  predicate PathFits(n: Name) { |"./data/" + Spell(n)| < STOCK_PATH_SIZE }

  function GenerationPath(kind: Kind, g: nat): string { "./data/" + Base(kind) + "." + Dec(g) }

  /** build_generation_path never runs out of room. */
  lemma GenerationPathFits(kind: Kind, g: nat)
    requires g <= LLONG_MAX
    ensures |GenerationPath(kind, g)| < STOCK_PATH_SIZE
    ensures GenerationPath(kind, g) == "./data/" + Spell(GenName(kind, g))
  {
    GenerationLength(g);
    var dir, base, tail := "./data/", Base(kind), "." + Dec(g);
    assert dir + base + "." + Dec(g) == dir + (base + "." + Dec(g));
  }

  lemma SpellClassify(s: string)
    ensures Spell(Classify(s)) == s
  {
    var snap, aof := "stock.snapshot.", "stock.aof.";
    if snap <= s {
      assert s == snap + s[15..];
      assert snap == Base(Snapshot) + ".";
    }
    if aof <= s {
      assert s == aof + s[10..];
      assert aof == Base(Aof) + ".";
    }
  }

  lemma DottedPrefix(s: string, base: string)
    ensures base + "." <= s <==> base <= s && |s| > |base| && s[|base|] == '.'
  {
    var dotted := base + ".";
    if dotted <= s {
      assert s[|base|] == dotted[|base|];
      assert s[..|base|] == dotted[..|base|] == base;
    }
    if base <= s && |s| > |base| && s[|base|] == '.' {
      assert s[..|dotted|] == s[..|base|] + [s[|base|]] == dotted;
    }
  }

  lemma NotFixed(s: string)
    requires |s| > 6 && (s[6] == 's' || s[6] == 'a')
    ensures s != "stock.manifest" && s != "stock.manifest.tmp"
    ensures s != "stock.bootstraping" && s != "stock_init.txt"
  {
  }

  /** The classification loses nothing of a directory string, and on every string the C test for a
      generation name agrees with it. */
  lemma SuffixOfClassified(s: string, kind: Kind)
    ensures Spell(Classify(s)) == s
    ensures ParseGenerationSuffix(s, Base(kind)) ==
      if Classify(s).GenFile? && Classify(s).kind == kind then GenOf(Classify(s)) else None
  {
    SpellClassify(s);
    assert GenSuffix("") == None;
    var dotted := Base(kind) + ".";
    var snap, aof := "stock.snapshot.", "stock.aof.";
    assert Base(Snapshot) + "." == snap && Base(Aof) + "." == aof;
    assert snap[6] == 's' && aof[6] == 'a';
    DottedPrefix(s, Base(kind));
    if dotted <= s {
      assert s[6] == dotted[6];
      NotFixed(s);
    }
  }

  /** The decimal suffix of every positive generation is decoded to that generation. */
  lemma SuffixInvertsRender(kind: Kind, g: nat)
    requires 1 <= g <= LLONG_MAX
    ensures GenOf(GenName(kind, g)) == Some(g)
    ensures ParseGenerationSuffix(Spell(GenName(kind, g)), Base(kind)) == Some(g)
  {
    ScanPrinted("", g, "");
    assert "" + IntText(g) + "" == Dec(g);
    var name := Spell(GenName(kind, g));
    assert name[..|Base(kind)|] == Base(kind);
    assert name[|Base(kind)| + 1..] == Dec(g);
  }

  /** Which names carry which generation: white space, sign and leading zeros are read over. */
  lemma GenOfExactly(n: Name, g: nat)
    ensures GenOf(n) == Some(g) <==>
      n.GenFile? && 1 <= g <= 0x7fff_ffff_ffff_ffff
        && exists blank, t :: n.suffix == blank + t && White(blank) && Numeral(t, g)
  {
    if n.GenFile? {
      if GenOf(n) == Some(g) {
        var blank, t := ScanIntOnly(n.suffix);
        assert n.suffix == blank + t;
      }
      if blank, t :| n.suffix == blank + t && White(blank) && Numeral(t, g) {
        assert n.suffix == blank + t + "";
        ScanIntReads(blank, t, g, "");
      }
    }
  }

  lemma NamesMean(n: Name)
    ensures IsArtifact(n) <==> n == ManifestTmp || exists g :: GenOf(n) == Some(g)
    ensures PathFits(n) <==> |Spell(n)| <= 248
    ensures Spell(Manifest) == "stock.manifest" && Spell(ManifestTmp) == "stock.manifest.tmp"
    ensures Spell(Marker) == "stock.bootstraping" && Spell(InitFile) == "stock_init.txt"
    ensures forall s :: Spell(GenFile(Snapshot, s)) == "stock.snapshot." + s
    ensures forall s :: Spell(GenFile(Aof, s)) == "stock.aof." + s
  {
    if GenOf(n).Some? { assert GenOf(n) == Some(GenOf(n).value); }
    assert |"./data/" + Spell(n)| == 7 + |Spell(n)|;
    assert "stock.snapshot" + "." == "stock.snapshot." && "stock.aof" + "." == "stock.aof.";
  }
}
