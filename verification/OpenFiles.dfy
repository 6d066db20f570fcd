/** Reference counting of open files (fio4emu/ioengines.c, filesetup.c, io_u.c): a file stays open for as long
    as it is wanted or an I/O unit still points at it. */
module OpenFiles {
  import opened Counting
  import opened Options

  datatype File = File(open: bool, closing: bool, references: int)

  ghost function PointsAt(f: nat): Option<nat> -> bool {
    (x: Option<nat>) => x == Some(f)
  }

  ghost function IsOpen(): File -> bool {
    (x: File) => x.open
  }

  /** References are the units pointing at the file, plus one while it is open and not closing; a file that
      is not open has neither; an open one has at least one. */
  ghost predicate FileInv(file: File, units: map<nat, Option<nat>>, f: nat) {
    && file.references == Count(units, PointsAt(f)) + One(file.open && !file.closing)
    && (file.open <==> file.references >= 1)
    && (file.closing ==> file.open)
  }

  ghost predicate TableInv(files: map<nat, File>, units: map<nat, Option<nat>>, nrOpen: int) {
    && nrOpen == Count(files, IsOpen())
    && (forall f :: f in files ==> FileInv(files[f], units, f))
    && (forall u :: u in units && units[u].Some? ==> units[u].value in files)
  }

  /** One file record changed, the units did not. */
  lemma FileChanged(files: map<nat, File>, units: map<nat, Option<nat>>, nrOpen: int, f: nat, x: File)
    requires TableInv(files, units, nrOpen) && f in files && FileInv(x, units, f)
    ensures TableInv(files[f := x], units, nrOpen - One(files[f].open) + One(x.open))
  {
    CountUpdate(files, f, x, IsOpen());
    assert forall g :: g in files && g != f ==> FileInv(files[g], units, g);
  }

  /** One unit moved to or from file f, whose record changed with it. */
  lemma UnitChanged(files: map<nat, File>, units: map<nat, Option<nat>>, nrOpen: int,
                    u: nat, y: Option<nat>, f: nat, x: File)
    requires TableInv(files, units, nrOpen) && f in files && u in units
    requires (units[u] == None && y == Some(f)) || (units[u] == Some(f) && y == None)
    requires FileInv(x, units[u := y], f)
    ensures TableInv(files[f := x], units[u := y], nrOpen - One(files[f].open) + One(x.open))
  {
    CountUpdate(files, f, x, IsOpen());
    forall g | g in files && g != f ensures FileInv(files[g], units[u := y], g) {
      assert FileInv(files[g], units, g);
      CountUpdate(units, u, y, PointsAt(g));
    }
  }

  class FileTable {
    var files: map<nat, File>
    var units: map<nat, Option<nat>>   // io_u->file of each unit
    var nrOpen: int
    var closes: seq<nat>               // calls of the engine's close_file, in order

    ghost predicate Valid()
      reads this
    {
      TableInv(files, units, nrOpen)
    }

    constructor (fileIds: set<nat>, unitIds: set<nat>)
      ensures Valid() && files.Keys == fileIds && units.Keys == unitIds && closes == []
      ensures (forall f :: f in files ==> !files[f].open) && (forall u :: u in units ==> units[u].None?)
    {
      files := map f | f in fileIds :: File(false, false, 0);
      units := map u | u in unitIds :: None;
      nrOpen := 0;
      closes := [];
      new;
      CountZero(files, IsOpen());
      forall f | f in files { CountZero(units, PointsAt(f)); }
    }

    /** get_file, which asserts that the file is open */
    method GetFile(f: nat)
      requires f in files && files[f].open
      modifies this`files
      ensures files == old(files)[f := old(files)[f].(references := old(files)[f].references + 1)]
    {
      files := files[f := files[f].(references := files[f].references + 1)];
    }

    /** put_file: the engine closes the file exactly when the last reference goes. */
    method PutFile(f: nat)
      requires f in files
      modifies this`files, this`nrOpen, this`closes
      ensures var x := old(files)[f];
        if !x.open
        then files == old(files) && nrOpen == old(nrOpen) && closes == old(closes)
        else if x.references == 1
        then files == old(files)[f := File(false, false, 0)] && nrOpen == old(nrOpen) - 1 && closes == old(closes) + [f]
        else files == old(files)[f := x.(references := x.references - 1)] && nrOpen == old(nrOpen) && closes == old(closes)
    {
      if !files[f].open { return; }
      files := files[f := files[f].(references := files[f].references - 1)];
      if files[f].references != 0 { return; }
      closes := closes + [f];
      nrOpen := nrOpen - 1;
      files := files[f := files[f].(closing := false)];
      files := files[f := files[f].(open := false)];
    }

    /** td_io_open_file: opening a closing file takes the close back; otherwise the engine opens it. */
    method OpenFile(f: nat, engineFails: bool) returns (error: bool)
      requires Valid() && f in files && (files[f].closing || !files[f].open)
      modifies this
      ensures Valid() && units == old(units) && closes == old(closes)
      ensures error == (!old(files)[f].closing && engineFails)
      ensures error ==> files == old(files)
      ensures !error ==> files.Keys == old(files).Keys && files[f].open && !files[f].closing
      ensures forall g :: g in files && g != f ==> files[g] == old(files)[g]
    {
      ghost var was := files[f];
      assert FileInv(was, units, f);
      if files[f].closing {
        FileChanged(files, units, nrOpen, f, was.(closing := false, references := was.references + 1));
        files := files[f := files[f].(closing := false)];
        GetFile(f);
        assert files == old(files)[f := files[f]];
        return false;
      }
      if engineFails { return true; }
      FileChanged(files, units, nrOpen, f, File(true, false, was.references + 1));
      files := files[f := files[f].(open := true)];
      files := files[f := files[f].(closing := false)];
      nrOpen := nrOpen + 1;
      GetFile(f);
      assert files == old(files)[f := files[f]];
      return false;
    }

    /** td_io_close_file on a file that is open and not already closing: the real close is left to the last
        unit still pointing at it. */
    method CloseFile(f: nat)
      requires Valid() && f in files && files[f].open && !files[f].closing
      modifies this
      ensures Valid() && units == old(units)
      ensures forall g :: g in old(files) && g != f ==> g in files && files[g] == old(files)[g]
      ensures var busy := exists u :: u in units && units[u] == Some(f);
        && f in files && files[f].open == busy && files[f].closing == busy
        && closes == if busy then old(closes) else old(closes) + [f]
    {
      assert FileInv(files[f], units, f);
      BusyCount(units, f);
      files := files[f := files[f].(closing := true)];
      PutFile(f);
      FileChanged(old(files), units, old(nrOpen), f, files[f]);
      assert files == old(files)[f := files[f]];
    }

    /** set_io_u_file for a file that yields an offset: the unit now points at it. */
    method Attach(u: nat, f: nat)
      requires Valid() && u in units && units[u].None? && f in files && files[f].open
      modifies this
      ensures Valid() && units == old(units)[u := Some(f)] && closes == old(closes) && nrOpen == old(nrOpen)
      ensures files == old(files)[f := old(files)[f].(references := old(files)[f].references + 1)]
    {
      assert FileInv(files[f], units, f);
      CountUpdate(units, u, Some(f), PointsAt(f));
      units := units[u := Some(f)];
      GetFile(f);
      UnitChanged(old(files), old(units), nrOpen, u, Some(f), f, files[f]);
    }

    /** The put_file of put_io_u and the file pointer it clears. */
    method Detach(u: nat)
      requires Valid() && u in units
      modifies this
      ensures Valid() && units == old(units)[u := None]
      ensures old(units)[u].None? ==> files == old(files) && closes == old(closes)
      ensures old(units)[u].Some? ==>
        var f := old(units)[u].value;
        var last := old(files)[f].closing && !exists v :: v in units && units[v] == Some(f);
        && f in files && closes == (if last then old(closes) + [f] else old(closes))
        && files[f].open == !last && files[f].closing == (old(files)[f].closing && !last)
        && forall g :: g in old(files) && g != f ==> g in files && files[g] == old(files)[g]
    {
      if units[u].Some? {
        var f := units[u].value;
        assert FileInv(files[f], units, f);
        CountUpdate(units, u, None, PointsAt(f));
        BusyCount(units[u := None], f);
        PutFile(f);
        UnitChanged(old(files), units, old(nrOpen), u, None, f, files[f]);
        assert files == old(files)[f := files[f]];
      }
      assert units[u].None? ==> units[u := None] == units;
      units := units[u := None];
    }

    /** set_io_u_file for a file with nothing left to do: reference it, drop the reference, close it. */
    method Exhaust(u: nat, f: nat)
      requires Valid() && u in units && units[u].None? && f in files && files[f].open && !files[f].closing
      modifies this
      ensures Valid() && units == old(units)
      ensures forall g :: g in old(files) && g != f ==> g in files && files[g] == old(files)[g]
      ensures var busy := exists v :: v in units && units[v] == Some(f);
        && f in files && files[f].open == busy && files[f].closing == busy
        && closes == if busy then old(closes) else old(closes) + [f]
    {
      Attach(u, f);
      Detach(u);
      assert units == old(units) && files[f].open && !files[f].closing && closes == old(closes);
      assert forall g :: g in old(files) && g != f ==> g in files && files[g] == old(files)[g];
      CloseFile(f);
    }
  }

  /** Some unit points at the file exactly when the count is positive. */
  lemma BusyCount(units: map<nat, Option<nat>>, f: nat)
    ensures Count(units, PointsAt(f)) >= 1 <==> exists u :: u in units && units[u] == Some(f)
  {
    if u :| u in units && units[u] == Some(f) {
      CountPositive(units, u, PointsAt(f));
    }
    if Count(units, PointsAt(f)) >= 1 {
      var u :| u in Those(units, PointsAt(f));
    }
  }
}
