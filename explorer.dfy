/**
 The record pipeline of `dir_activity` in pdexplorer.py: keep the directory
 entries that are regular files, build one record per file, and order the
 records by modification time, newest first.

 The directory walk, the `stat` calls, owner lookup and time-zone formatting
 are inputs here: an `Entry` carries what `rglob` and `stat` would report for
 one path, and `fmtTime` stands for the local-time rendering of a timestamp.
 */
module Explorer {
  import opened SizeFormat

  /** One path yielded by the recursive walk, with what `stat` reports for it. */
  datatype Entry = Entry(
    isFile: bool,   // what `Path.is_file()` reports (symbolic links followed)
    path: string,   // the parent directory, relative to the target's parent
    name: string,   // the base name
    size: nat,      // st_size
    mtime: real,    // st_mtime
    owner: string)  // the owner's account name

  /** One row of the result table. */
  datatype FileRecord = FileRecord(
    path: string,
    fname: string,
    size: nat,
    sizeFmt: Formatted,
    mtime: real,
    mtimeFmt: string,
    owner: string)

  /** The row built for one file. */
  function MakeRecord(e: Entry, fmtTime: real -> string): (rec: FileRecord)
    ensures rec.path == e.path && rec.fname == e.name && rec.owner == e.owner
    ensures rec.size == e.size && rec.sizeFmt == FormatSize(e.size as real, "B")
    ensures rec.sizeFmt.suffix == "B" && rec.sizeFmt.value == (e.size as real) / Pow1024(rec.sizeFmt.exponent)
    ensures rec.mtime == e.mtime && rec.mtimeFmt == fmtTime(e.mtime)
  {
    FileRecord(e.path, e.name, e.size, FormatSize(e.size as real, "B"),
               e.mtime, fmtTime(e.mtime), e.owner)
  }

  /** Number of regular files among the entries. */
  function CountFiles(entries: seq<Entry>): (n: nat)
    ensures n <= |entries|
    ensures n == 0 <==> forall j :: 0 <= j < |entries| ==> !entries[j].isFile
  {
    if entries == [] then 0
    else CountFiles(entries[..|entries| - 1]) + (if entries[|entries| - 1].isFile then 1 else 0)
  }

  /** A row is well formed when its derived columns agree with its raw ones. */
  predicate WellFormed(r: FileRecord, fmtTime: real -> string) {
    r.sizeFmt == FormatSize(r.size as real, "B") && r.mtimeFmt == fmtTime(r.mtime)
  }

  /** The list comprehension: one record per regular file, in walk order. */
  function CollectFiles(entries: seq<Entry>, fmtTime: real -> string): (rs: seq<FileRecord>)
    ensures |rs| == CountFiles(entries)
    ensures forall i :: 0 <= i < |rs| ==> WellFormed(rs[i], fmtTime)
  {
    if entries == [] then []
    else
      var init, last := entries[..|entries| - 1], entries[|entries| - 1];
      CollectFiles(init, fmtTime) + (if last.isFile then [MakeRecord(last, fmtTime)] else [])
  }

  /** Rows ordered by modification time, newest first. */
  predicate SortedDesc(rs: seq<FileRecord>) {
    forall i, j :: 0 <= i < j < |rs| ==> rs[i].mtime >= rs[j].mtime
  }

  /** A row no older than every row of a sorted table can head it. */
  lemma PrependSorted(x: FileRecord, rs: seq<FileRecord>)
    requires SortedDesc(rs)
    requires forall i :: 0 <= i < |rs| ==> rs[i].mtime <= x.mtime
    ensures SortedDesc([x] + rs)
  {
    var out := [x] + rs;
    forall i, j | 0 <= i < j < |out|
      ensures out[i].mtime >= out[j].mtime
    {
      assert out[j] == rs[j - 1];
      if i > 0 {
        assert out[i] == rs[i - 1];
      }
    }
  }

  /** Puts one row into a sorted table at its place. */
  function Insert(r: FileRecord, rs: seq<FileRecord>): (out: seq<FileRecord>)
    requires SortedDesc(rs)
    ensures SortedDesc(out)
    ensures multiset(out) == multiset(rs) + multiset{r}
  {
    if rs == [] || rs[0].mtime <= r.mtime then
      PrependSorted(r, rs);
      [r] + rs
    else
      var tail := Insert(r, rs[1..]);
      assert rs == [rs[0]] + rs[1..];
      assert forall i :: 0 <= i < |tail| ==> tail[i].mtime <= rs[0].mtime by {
        forall i | 0 <= i < |tail|
          ensures tail[i].mtime <= rs[0].mtime
        {
          assert tail[i] in multiset(rs[1..]) + multiset{r};
        }
      }
      PrependSorted(rs[0], tail);
      [rs[0]] + tail
  }

  /** `sort_values("mtime", ascending=False)`: the same rows, newest first. */
  function SortByMtimeDesc(rs: seq<FileRecord>): (out: seq<FileRecord>)
    ensures SortedDesc(out)
    ensures multiset(out) == multiset(rs)
  {
    if rs == [] then []
    else
      assert rs == [rs[0]] + rs[1..];
      Insert(rs[0], SortByMtimeDesc(rs[1..]))
  }

  /** A permutation keeps a property that holds of every row. */
  lemma WellFormedPermutation(a: seq<FileRecord>, b: seq<FileRecord>, fmtTime: real -> string)
    requires multiset(a) == multiset(b)
    requires forall i :: 0 <= i < |b| ==> WellFormed(b[i], fmtTime)
    ensures forall i :: 0 <= i < |a| ==> WellFormed(a[i], fmtTime)
  {
    forall i | 0 <= i < |a|
      ensures WellFormed(a[i], fmtTime)
    {
      assert a[i] in multiset(a);
      assert a[i] in b;
    }
  }

  /** What `dir_activity` returns: the sorted table, or the `KeyError` that
      pandas raises when it is asked to sort a frame built from no rows, which
      has no `mtime` column. */
  datatype Activity = Table(rows: seq<FileRecord>) | MissingColumn(column: string)

  /** `dir_activity`: the records of all regular files, newest first, or the
      missing-column error when there is no regular file at all. */
  function DirActivity(entries: seq<Entry>, fmtTime: real -> string): (r: Activity)
    ensures r.MissingColumn? <==> CountFiles(entries) == 0
    ensures r.MissingColumn? ==> r.column == "mtime"
    ensures r.Table? ==> |r.rows| == CountFiles(entries)
    ensures r.Table? ==> multiset(r.rows) == multiset(CollectFiles(entries, fmtTime))
    ensures r.Table? ==> SortedDesc(r.rows)
    ensures r.Table? ==> forall i :: 0 <= i < |r.rows| - 1 ==> r.rows[i].mtime >= r.rows[i + 1].mtime
    ensures r.Table? ==> forall i :: 0 <= i < |r.rows| ==> WellFormed(r.rows[i], fmtTime)
  {
    var rs := CollectFiles(entries, fmtTime);
    if rs == [] then MissingColumn("mtime")
    else
      var table := SortByMtimeDesc(rs);
      assert |table| == |multiset(table)| == |rs|;
      WellFormedPermutation(table, rs, fmtTime);
      Table(table)
  }

  /** The comprehension works entry by entry: the rows of a concatenation are
      the rows of each part, in order, so an entry that is not a regular file
      adds nothing and a regular file adds exactly its own row. */
  lemma {:induction false} CollectFilesAppend(a: seq<Entry>, b: seq<Entry>, fmtTime: real -> string)
    ensures CollectFiles(a + b, fmtTime) == CollectFiles(a, fmtTime) + CollectFiles(b, fmtTime)
    decreases |b|
  {
    if b == [] {
      assert a + b == a;
    } else {
      var init, last := b[..|b| - 1], b[|b| - 1];
      assert (a + b)[..|a + b| - 1] == a + init;
      assert (a + b)[|a + b| - 1] == last;
      CollectFilesAppend(a, init, fmtTime);
    }
  }

  /** Every collected row is the record of a regular-file entry. */
  lemma {:induction false} CollectFilesSound(entries: seq<Entry>, fmtTime: real -> string, x: FileRecord)
    requires x in CollectFiles(entries, fmtTime)
    ensures exists j :: 0 <= j < |entries| && entries[j].isFile && x == MakeRecord(entries[j], fmtTime)
    decreases |entries|
  {
    var n := |entries| - 1;
    var init := entries[..n];
    if x in CollectFiles(init, fmtTime) {
      CollectFilesSound(init, fmtTime, x);
      var j :| 0 <= j < |init| && init[j].isFile && x == MakeRecord(init[j], fmtTime);
      assert entries[j] == init[j];
    } else {
      assert entries[n].isFile && x == MakeRecord(entries[n], fmtTime);
    }
  }

  /** Every regular-file entry has its record among the collected rows. */
  lemma {:induction false} CollectFilesComplete(entries: seq<Entry>, fmtTime: real -> string, j: nat)
    requires j < |entries| && entries[j].isFile
    ensures MakeRecord(entries[j], fmtTime) in CollectFiles(entries, fmtTime)
    decreases |entries|
  {
    var n := |entries| - 1;
    var init := entries[..n];
    if j < n {
      assert init[j] == entries[j];
      CollectFilesComplete(init, fmtTime, j);
    }
  }

  /** The rows collected are exactly the records of the regular files. */
  lemma CollectFilesMembers(entries: seq<Entry>, fmtTime: real -> string, x: FileRecord)
    ensures x in CollectFiles(entries, fmtTime) <==>
      exists j :: 0 <= j < |entries| && entries[j].isFile && x == MakeRecord(entries[j], fmtTime)
  {
    if x in CollectFiles(entries, fmtTime) {
      CollectFilesSound(entries, fmtTime, x);
    }
    if exists j :: 0 <= j < |entries| && entries[j].isFile && x == MakeRecord(entries[j], fmtTime) {
      var j :| 0 <= j < |entries| && entries[j].isFile && x == MakeRecord(entries[j], fmtTime);
      CollectFilesComplete(entries, fmtTime, j);
    }
  }

  /** Every row of the table is the record of some regular file, and every
      regular file has its record in the table. */
  lemma TableRows(entries: seq<Entry>, fmtTime: real -> string)
    ensures var r := DirActivity(entries, fmtTime);
      && (r.Table? ==> forall i :: 0 <= i < |r.rows| ==>
            exists j :: 0 <= j < |entries| && entries[j].isFile && r.rows[i] == MakeRecord(entries[j], fmtTime))
      && (forall j :: 0 <= j < |entries| && entries[j].isFile ==> r.Table? && MakeRecord(entries[j], fmtTime) in r.rows)
  {
    var r := DirActivity(entries, fmtTime);
    var rs := CollectFiles(entries, fmtTime);
    if r.Table? {
      var table := r.rows;
      forall i | 0 <= i < |table|
        ensures exists j :: 0 <= j < |entries| && entries[j].isFile && table[i] == MakeRecord(entries[j], fmtTime)
      {
        assert table[i] in multiset(table);
        CollectFilesMembers(entries, fmtTime, table[i]);
      }
      forall j | 0 <= j < |entries| && entries[j].isFile
        ensures MakeRecord(entries[j], fmtTime) in table
      {
        CollectFilesMembers(entries, fmtTime, MakeRecord(entries[j], fmtTime));
        assert MakeRecord(entries[j], fmtTime) in multiset(rs);
      }
    }
  }

  /** A position at which a row occurs in a table. */
  function IndexOf(b: seq<FileRecord>, x: FileRecord): (k: nat)
    requires x in multiset(b)
    ensures k < |b| && b[k] == x
  {
    if b[0] == x then 0 else IndexOf(b[1..], x) + 1
  }

  /** Taking the element at index k out of a sequence takes one copy of it
      out of the sequence's multiset. */
  lemma RemoveAt<T>(s: seq<T>, k: nat)
    requires k < |s|
    ensures multiset(s[..k] + s[k + 1..]) == multiset(s) - multiset{s[k]}
  {
    assert s == s[..k] + [s[k]] + s[k + 1..];
    assert multiset(s) == multiset(s[..k] + s[k + 1..]) + multiset{s[k]};
  }

  /** Taking one row out of a newest-first table leaves it newest first. */
  lemma RemoveSorted(b: seq<FileRecord>, k: nat)
    requires k < |b| && SortedDesc(b)
    ensures SortedDesc(b[..k] + b[k + 1..])
  {
    var r := b[..k] + b[k + 1..];
    forall i, j | 0 <= i < j < |r|
      ensures r[i].mtime >= r[j].mtime
    {
      var i', j' := if i < k then i else i + 1, if j < k then j else j + 1;
      assert r[i] == b[i'] && r[j] == b[j'];
    }
  }

  /** Rows between two rows of equal time in a newest-first table share that
      time. */
  lemma PlateauUpTo(b: seq<FileRecord>, k: nat)
    requires SortedDesc(b) && k < |b| && b[k].mtime == b[0].mtime
    ensures forall i :: 0 <= i <= k ==> b[i].mtime == b[0].mtime
  {
    forall i | 0 < i < k
      ensures b[i].mtime == b[0].mtime
    {
      assert b[0].mtime >= b[i].mtime >= b[k].mtime;
    }
  }

  /** Re-inserting the row taken out at index k: if the rest of `a` agrees
      with `b` minus its row k, and rows 0..k of `b` share the time of `a`'s
      head, then `a` agrees with `b` at every position. */
  lemma AgreeAfterRemoval(a: seq<FileRecord>, b: seq<FileRecord>, k: nat)
    requires |a| == |b| && k < |b| && a != []
    requires forall i :: 0 <= i <= k ==> b[i].mtime == a[0].mtime
    requires forall i :: 0 <= i < |a| - 1 ==> a[1..][i].mtime == (b[..k] + b[k + 1..])[i].mtime
    ensures forall i :: 0 <= i < |a| ==> a[i].mtime == b[i].mtime
  {
    var restB := b[..k] + b[k + 1..];
    forall i | 0 < i < |a|
      ensures a[i].mtime == b[i].mtime
    {
      assert a[1..][i - 1] == a[i];
      if i <= k {
        assert restB[i - 1] == b[i - 1];
      } else {
        assert restB[i - 1] == b[i];
      }
    }
  }

  /** The sort fixes the modification-time column completely: any two
      newest-first orderings of the same rows have the same time at every
      position, so they differ at most in the order of rows with equal
      times. */
  lemma {:induction false} SortedTablesAgree(a: seq<FileRecord>, b: seq<FileRecord>)
    requires SortedDesc(a) && SortedDesc(b)
    requires multiset(a) == multiset(b)
    ensures |a| == |b|
    ensures forall i :: 0 <= i < |a| ==> a[i].mtime == b[i].mtime
    decreases |a|
  {
    assert |a| == |multiset(a)| == |b|;
    if a != [] {
      var k := IndexOf(b, a[0]);
      var j := IndexOf(a, b[0]);
      assert b[0].mtime == a[0].mtime by {
        assert a[0].mtime >= a[j].mtime && b[0].mtime >= b[k].mtime;
      }
      PlateauUpTo(b, k);
      var restA, restB := a[1..], b[..k] + b[k + 1..];
      assert multiset(restA) == multiset(a) - multiset{a[0]} by {
        assert a == [a[0]] + restA;
      }
      RemoveAt(b, k);
      RemoveSorted(b, k);
      SortedTablesAgree(restA, restB);
      AgreeAfterRemoval(a, b, k);
    }
  }

  /** Sorting two rows puts the newer one first. */
  lemma SortTwo(older: FileRecord, newer: FileRecord)
    requires older.mtime < newer.mtime
    ensures SortByMtimeDesc([older, newer]) == [newer, older]
  {
    assert [older, newer][1..] == [newer];
    assert SortByMtimeDesc([newer]) == Insert(newer, []) == [newer];
    assert [newer][1..] == [];
  }

  /** Two files under different directories, the second newer: the table has
      two rows, the newer file first, rendered as 2.0KB and 10.0B. */
  lemma TwoFileScenario(t1: real, t2: real, fmtTime: real -> string)
    requires t2 > t1
    ensures var dirA := Entry(false, "target", "a", 0, t1, "alice");
      var x := Entry(true, "target/a", "x.txt", 10, t1, "alice");
      var dirB := Entry(false, "target", "b", 0, t2, "alice");
      var y := Entry(true, "target/b", "y.bin", 2048, t2, "bob");
      var table := DirActivity([dirA, x, dirB, y], fmtTime).rows;
      && DirActivity([dirA, x, dirB, y], fmtTime) == Table([MakeRecord(y, fmtTime), MakeRecord(x, fmtTime)])
      && table[0].sizeFmt == Formatted(2.0, 1, "K", "B")
      && table[1].sizeFmt == Formatted(10.0, 0, "", "B")
  {
    var dirA := Entry(false, "target", "a", 0, t1, "alice");
    var x := Entry(true, "target/a", "x.txt", 10, t1, "alice");
    var dirB := Entry(false, "target", "b", 0, t2, "alice");
    var y := Entry(true, "target/b", "y.bin", 2048, t2, "bob");
    var entries := [dirA, x, dirB, y];
    assert entries[..3] == [dirA, x, dirB];
    assert [dirA, x, dirB][..2] == [dirA, x];
    assert [dirA, x][..1] == [dirA];
    assert CollectFiles([dirA], fmtTime) == [] by {
      assert [dirA][..0] == [];
    }
    assert CollectFiles([dirA, x], fmtTime) == [MakeRecord(x, fmtTime)];
    assert CollectFiles([dirA, x, dirB], fmtTime) == [MakeRecord(x, fmtTime)];
    var rx, ry := MakeRecord(x, fmtTime), MakeRecord(y, fmtTime);
    assert CollectFiles(entries, fmtTime) == [rx, ry];
    SortTwo(rx, ry);
    NoScalingBelow1024(10.0, "B");
    RenderingUnique(2048.0, "B", Formatted(2.0, 1, "K", "B"));
  }

  /** A walk that finds only directories fails: the frame has no `mtime`
      column to sort by. */
  lemma OnlyDirectoriesFail(fmtTime: real -> string)
    ensures var dir := Entry(false, "target", "sub", 0, 0.0, "alice");
      DirActivity([], fmtTime) == MissingColumn("mtime") &&
      DirActivity([dir, dir], fmtTime) == MissingColumn("mtime")
  {
    var dir := Entry(false, "target", "sub", 0, 0.0, "alice");
    assert [dir, dir][..1] == [dir];
    assert [dir][..0] == [];
  }
}
