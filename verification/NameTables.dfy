/** The string tables of a loaded module: file names, reached through a table of 32-bit offsets for
    each compilation unit (obj/readobj.1.16.go, readobj.go, ld.go: `addSymbols`), and function names
    (ld.go: `readFuncData`, inlinetree.go).  Both are interned and only ever appended to. */
module NameTables {
  import opened Bytes

  type Name = seq<byte>

  const FILE_SYM_PREFIX: Name := [103, 111, 102, 105, 108, 101, 46, 46]  // "gofile.."

  predicate NoZero(n: Name) { 0 !in n }

  /** `gostringnocopy`: the bytes up to the first zero. */
  function CString(tab: seq<byte>, off: nat): seq<byte>
    requires off <= |tab|
    decreases |tab| - off
  {
    if off == |tab| || tab[off] == 0 then [] else [tab[off]] + CString(tab, off + 1)
  }

  /** `n` and a zero byte stand at `off`. */
  predicate HoldsAt(tab: seq<byte>, off: nat, n: Name) {
    off + |n| < |tab| && tab[off..off + |n|] == n && tab[off + |n|] == 0
  }

  /** The table an entry is in may grow; the entry still reads back as its name. */
  lemma {:induction false} ReadsBack(tab: seq<byte>, more: seq<byte>, off: nat, n: Name)
    requires HoldsAt(tab, off, n) && NoZero(n)
    ensures HoldsAt(tab + more, off, n) && CString(tab + more, off) == n
    decreases |n|
  {
    var t := tab + more;
    assert t[off..off + |n|] == n;
    if n != [] {
      assert t[off] == n[0] && n[0] in n;
      assert tab[off + 1..off + 1 + |n[1..]|] == n[1..];
      ReadsBack(tab, more, off + 1, n[1..]);
    }
  }

  lemma HoldsLater(tab: seq<byte>, more: seq<byte>, off: nat, n: Name)
    requires HoldsAt(tab, off, n)
    ensures HoldsAt(tab + more, off, n)
  {
    assert (tab + more)[off..off + |n|] == tab[off..off + |n|];
  }

  lemma HoldsNew(tab: seq<byte>, n: Name)
    ensures HoldsAt(tab + n + [0], |tab|, n)
  {
    assert (tab + n + [0])[|tab|..|tab| + |n|] == n;
  }

  // ----- function names -----

  /** Every interned name is in the table, at an offset that is not zero, which means none. */
  ghost predicate NamesKept(tab: seq<byte>, names: map<Name, nat>) {
    forall n :: n in names ==> names[n] > 0 && HoldsAt(tab, names[n], n)
  }

  class FuncNames {
    var funcnametab: seq<byte>
    var namemap: map<Name, nat>

    constructor ()
      ensures NamesKept(funcnametab, namemap) && namemap == map[] && |funcnametab| == WORD
    {
      funcnametab := seq(WORD, _ => 0);
      namemap := map[];
    }

    /** Interns a name and returns its offset; whatever was interned before keeps its place. */
    method Intern(name: Name) returns (nameOff: nat)
      requires NamesKept(funcnametab, namemap) && |funcnametab| > 0
      modifies this
      ensures NamesKept(funcnametab, namemap) && old(funcnametab) <= funcnametab
      ensures namemap == old(namemap)[name := nameOff]
      ensures name in old(namemap) ==> nameOff == old(namemap)[name] && funcnametab == old(funcnametab)
      ensures nameOff > 0 && HoldsAt(funcnametab, nameOff, name)
    {
      hide HoldsAt;
      if name in namemap {
        nameOff := namemap[name];
      } else {
        nameOff := |funcnametab|;
        HoldsNew(funcnametab, name);
        forall n | n in namemap ensures HoldsAt(funcnametab + name + [0], namemap[n], n) {
          HoldsLater(funcnametab, name, namemap[n], n);
          HoldsLater(funcnametab + name, [0], namemap[n], n);
        }
        namemap := namemap[name := nameOff];
        funcnametab := funcnametab + name;
        funcnametab := funcnametab + [0];
      }
    }
  }

  /** Different names get different offsets, since each offset reads back as its own name. */
  lemma OffsetsTellNamesApart(tab: seq<byte>, names: map<Name, nat>, a: Name, b: Name)
    requires NamesKept(tab, names) && a in names && b in names && NoZero(a) && NoZero(b)
    ensures names[a] == names[b] <==> a == b
  {
    ReadsBack(tab, [], names[a], a);
    ReadsBack(tab, [], names[b], b);
    assert tab + [] == tab;
  }

  // ----- file names -----

  /** The files of all compilation units, one behind the other. */
  function Flatten(cus: seq<seq<Name>>): seq<Name> {
    if cus == [] then [] else Flatten(cus[..|cus| - 1]) + cus[|cus| - 1]
  }

  lemma {:induction false} FlattenAppend(a: seq<seq<Name>>, b: seq<seq<Name>>)
    ensures Flatten(a + b) == Flatten(a) + Flatten(b)
  {
    if b == [] {
      assert a + b == a;
    } else {
      var front := b[..|b| - 1];
      FlattenAppend(a, front);
      assert (a + b)[..|a + b| - 1] == a + front;
    }
  }

  /** File `j` of a unit, in the list of all files. */
  lemma FlattenAt(cus: seq<seq<Name>>, c: nat, j: nat)
    requires c < |cus| && j < |cus[c]|
    ensures var off := |Flatten(cus[..c])|; off + j < |Flatten(cus)| && Flatten(cus)[off + j] == cus[c][j]
  {
    FlattenAppend(cus[..c + 1], cus[c + 1..]);
    assert cus == cus[..c + 1] + cus[c + 1..];
    assert cus[..c + 1][..c] == cus[..c];
  }

  /** The loops that add up the files of the units before. */
  method CountFiles(cus: seq<seq<Name>>) returns (cuOffset: nat)
    ensures cuOffset == |Flatten(cus)|
  {
    cuOffset := 0;
    var i := 0;
    while i < |cus|
      invariant 0 <= i <= |cus| && cuOffset == |Flatten(cus[..i])|
    {
      assert cus[..i + 1][..i] == cus[..i];
      cuOffset := cuOffset + |cus[i]|;
      i := i + 1;
    }
    assert cus[..i] == cus;
  }

  function TrimPrefix(n: Name): Name {
    if FILE_SYM_PREFIX <= n then n[|FILE_SYM_PREFIX|..] else n
  }

  /** The prefix `gofile..` is dropped, once; other names are kept. */
  lemma TrimmedIs(n: Name, rest: Name)
    ensures TrimPrefix([0x67, 0x6F, 0x66, 0x69, 0x6C, 0x65, 0x2E, 0x2E] + rest) == rest
    ensures !([0x67, 0x6F, 0x66, 0x69, 0x6C, 0x65, 0x2E, 0x2E] <= n) ==> TrimPrefix(n) == n
  {
    var prefix: Name := [0x67, 0x6F, 0x66, 0x69, 0x6C, 0x65, 0x2E, 0x2E];
    assert prefix == FILE_SYM_PREFIX;
    assert (prefix + rest)[8..] == rest;
  }

  /** Every interned file is in the table under its expanded name. */
  ghost predicate FilesKept(expand: Name -> Name, tab: seq<byte>, files: map<Name, nat>) {
    forall n :: n in files ==> HoldsAt(tab, files[n], expand(TrimPrefix(n)))
  }

  /** The two-level table: entry `k` leads to the name of file `k`. */
  ghost predicate EntriesLead(expand: Name -> Name, tab: seq<byte>, cutab: seq<nat>, all: seq<Name>) {
    |cutab| <= |all| && forall k :: 0 <= k < |cutab| ==> HoldsAt(tab, cutab[k], expand(TrimPrefix(all[k])))
  }

  class FileTables {
    const expand: Name -> Name  // `expandGoroot`
    var cuFiles: seq<seq<Name>>
    var filetab: seq<byte>
    var cutab: seq<nat>
    var fileNameMap: map<Name, nat>

    constructor (expand: Name -> Name)
      ensures this.expand == expand && cuFiles == [] && filetab == [] && cutab == [] && fileNameMap == map[]
    {
      this.expand := expand;
      cuFiles, filetab, cutab, fileNameMap := [], [], [], map[];
    }

    /** Reads a package: the functions of its unit `i` get the offset `offsets[i]`, first counted from
        the units read before in the same archive, then moved behind those of earlier packages. */
    method ReadPackage(cus: seq<seq<Name>>) returns (offsets: seq<nat>)
      modifies `cuFiles
      ensures cuFiles == old(cuFiles) + cus
      ensures |offsets| == |cus|
      ensures forall i :: 0 <= i < |cus| ==> offsets[i] == |Flatten(old(cuFiles) + cus[..i])|
    {
      hide Flatten;
      offsets := [];
      var i := 0;
      while i < |cus|
        invariant 0 <= i <= |cus| && |offsets| == i && cuFiles == old(cuFiles)
        invariant forall k :: 0 <= k < i ==> offsets[k] == |Flatten(cus[..k])|
      {
        var cuOffset := CountFiles(cus[..i]);
        offsets := offsets + [cuOffset];
        i := i + 1;
      }
      var before := CountFiles(cuFiles);
      var own := offsets;
      i := 0;
      while i < |cus|
        invariant 0 <= i <= |cus| == |offsets| && cuFiles == old(cuFiles)
        invariant forall k :: 0 <= k < |cus| ==> offsets[k] == own[k] + if k < i then before else 0
      {
        offsets := offsets[i := offsets[i] + before];
        i := i + 1;
      }
      forall k | 0 <= k < |cus| ensures offsets[k] == |Flatten(cuFiles + cus[..k])| {
        FlattenAppend(cuFiles, cus[..k]);
      }
      cuFiles := cuFiles + cus;
    }

    /** The first loop of `addSymbols`.  Offsets are 32 bits wide, so the claim ends where the table
        outgrows them. */
    method AddFiles()
      requires filetab == [] && cutab == [] && fileNameMap == map[]
      modifies `filetab, `cutab, `fileNameMap
      ensures |cutab| == |Flatten(cuFiles)|
      ensures |filetab| <= TWO_32 ==> EntriesLead(expand, filetab, cutab, Flatten(cuFiles))
    {
      hide HoldsAt;
      var c := 0;
      while c < |cuFiles|
        invariant 0 <= c <= |cuFiles| && |cutab| == |Flatten(cuFiles[..c])|
        invariant FilesKept(expand, filetab, fileNameMap)
        invariant |filetab| <= TWO_32 ==> EntriesLead(expand, filetab, cutab, Flatten(cuFiles[..c]))
      {
        var files := cuFiles[c];
        ghost var done := Flatten(cuFiles[..c]);
        assert cuFiles[..c + 1][..c] == cuFiles[..c];
        assert done + files[..0] == done;
        var j := 0;
        while j < |files|
          invariant 0 <= j <= |files| && |cutab| == |done| + j
          invariant FilesKept(expand, filetab, fileNameMap)
          invariant |filetab| <= TWO_32 ==> EntriesLead(expand, filetab, cutab, done + files[..j])
        {
          assert done + files[..j + 1] == done + files[..j] + [files[j]];
          AddFile(files[j], done + files[..j]);
          j := j + 1;
        }
        assert done + files[..j] == Flatten(cuFiles[..c + 1]);
        c := c + 1;
      }
      assert cuFiles[..c] == cuFiles;
    }

    /** One file: interned if new, and entered in either case. */
    method AddFile(fileName: Name, ghost done: seq<Name>)
      requires FilesKept(expand, filetab, fileNameMap) && |cutab| == |done|
      requires |filetab| <= TWO_32 ==> EntriesLead(expand, filetab, cutab, done)
      modifies `filetab, `cutab, `fileNameMap
      ensures FilesKept(expand, filetab, fileNameMap) && |cutab| == |done| + 1
      ensures old(filetab) <= filetab && old(cutab) <= cutab
      ensures |filetab| <= TWO_32 ==> EntriesLead(expand, filetab, cutab, done + [fileName])
    {
      hide HoldsAt;
      if fileName !in fileNameMap {
        cutab := cutab + [U32(|filetab|)];
        fileNameMap := fileNameMap[fileName := |filetab|];
        var name := expand(TrimPrefix(fileName));
        FileAdded(expand, filetab, fileNameMap, fileName, old(cutab), done);
        filetab := filetab + name;
        filetab := filetab + [0];
      } else {
        cutab := cutab + [U32(fileNameMap[fileName])];
        FileThere(filetab, fileNameMap[fileName], expand(TrimPrefix(fileName)));
      }
    }
  }

  lemma FileThere(tab: seq<byte>, off: nat, n: Name)
    requires HoldsAt(tab, off, n)
    ensures |tab| <= TWO_32 ==> U32(off) == off
  {
  }

  /** A new file at the end of the table: what was there before stays. */
  lemma FileAdded(expand: Name -> Name, tab: seq<byte>, files: map<Name, nat>, fileName: Name,
                  cutab: seq<nat>, all: seq<Name>)
    requires fileName in files && files[fileName] == |tab| && |cutab| == |all|
    requires forall n :: n in files && n != fileName ==> HoldsAt(tab, files[n], expand(TrimPrefix(n)))
    ensures var name := expand(TrimPrefix(fileName));
            var tab' := tab + name + [0];
            && FilesKept(expand, tab', files)
            && (|tab| <= TWO_32 && EntriesLead(expand, tab, cutab, all) && |tab'| <= TWO_32 ==>
                  EntriesLead(expand, tab', cutab + [U32(|tab|)], all + [fileName]))
  {
    hide HoldsAt;
    var name := expand(TrimPrefix(fileName));
    HoldsNew(tab, name);
    forall n | n in files && n != fileName ensures HoldsAt(tab + name + [0], files[n], expand(TrimPrefix(n))) {
      HoldsLater(tab, name, files[n], expand(TrimPrefix(n)));
      HoldsLater(tab + name, [0], files[n], expand(TrimPrefix(n)));
    }
    if EntriesLead(expand, tab, cutab, all) {
      forall k | 0 <= k < |cutab| ensures HoldsAt(tab + name + [0], cutab[k], expand(TrimPrefix(all[k]))) {
        HoldsLater(tab, name, cutab[k], expand(TrimPrefix(all[k])));
        HoldsLater(tab + name, [0], cutab[k], expand(TrimPrefix(all[k])));
      }
    }
  }

  /** From a function to its files: the string at `cutab[CUOffset + j]` is the expanded name of file `j`
      of its compilation unit, for every package and unit, and whatever is appended behind the tables. */
  lemma FileReadsBack(expand: Name -> Name, before: seq<seq<Name>>, cus: seq<seq<Name>>, after: seq<seq<Name>>,
                      c: nat, j: nat, filetab: seq<byte>, more: seq<byte>, cutab: seq<nat>)
    requires c < |cus| && j < |cus[c]| && NoZero(expand(TrimPrefix(cus[c][j])))
    requires var all := Flatten(before + cus + after);
             |cutab| == |all| && EntriesLead(expand, filetab, cutab, all)
    ensures var cuOffset := |Flatten(before + cus[..c])|;
            && cuOffset + j < |cutab| && cutab[cuOffset + j] <= |filetab|
            && CString(filetab + more, cutab[cuOffset + j]) == expand(TrimPrefix(cus[c][j]))
  {
    hide Flatten, CString;
    var all := before + cus + after;
    FlattenAt(all, |before| + c, j);
    assert all[..|before| + c] == before + cus[..c];
    assert all[|before| + c] == cus[c];
    var k := |Flatten(before + cus[..c])| + j;
    ReadsBack(filetab, more, cutab[k], expand(TrimPrefix(cus[c][j])));
  }
}
