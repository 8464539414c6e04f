/** create_csv_dataset: walks the tile/night folders, reads every coadd file, keeps
    the eligible targets and accumulates one flux row per kept target and one
    wavelength row per file that kept any. `Dataset` is the specification and
    `CreateCsvDataset` the loop that builds the two row lists. */
module WriteDataset {
  import opened SpectraModel
  import opened Selection
  import opened Bands

  const CoaddPrefix: string := "coadd-"

  /** name.startswith('coadd-') */
  predicate IsCoadd(name: string)
  {
    CoaddPrefix <= name
  }

  /** The petal files of a folder listing: the coadd-prefixed names, in listing order. */
  function CoaddFiles(listing: seq<string>): (petals: seq<string>)
    ensures forall f :: f in petals <==> f in listing && IsCoadd(f)
    ensures |petals| <= |listing|
    decreases |listing|
  {
    if listing == [] then []
    else
      var n := |listing| - 1;
      CoaddFiles(listing[..n]) + (if IsCoadd(listing[n]) then [listing[n]] else [])
  }

  /** The filter keeps listing order and multiplicity: filtering a ++ b filters a, then b. */
  lemma {:induction false} CoaddFilesAppend(a: seq<string>, b: seq<string>)
    ensures CoaddFiles(a + b) == CoaddFiles(a) + CoaddFiles(b)
    decreases |b|
  {
    if b == [] {
      assert a + b == a;
    } else {
      var n := |b| - 1;
      assert (a + b)[..|a + b| - 1] == a + b[..n];
      assert (a + b)[|a + b| - 1] == b[n];
      CoaddFilesAppend(a, b[..n]);
    }
  }

  /** A one-name listing keeps its name exactly when it starts with coadd-. */
  lemma CoaddFilesSingle(name: string)
    ensures CoaddFiles([name]) == if IsCoadd(name) then [name] else []
  {
  }

  /** zip(tiles_ids, nights): pairs up to the shorter of the two lists. */
  function Zip(tiles: seq<string>, nights: seq<string>): (folders: seq<Folder>)
    ensures |folders| == if |tiles| <= |nights| then |tiles| else |nights|
    ensures forall i :: 0 <= i < |folders| ==> folders[i] == Folder(tiles[i], nights[i])
    decreases |tiles|
  {
    if tiles == [] || nights == [] then []
    else [Folder(tiles[0], nights[0])] + Zip(tiles[1..], nights[1..])
  }

  /** The TILEID cell of a flux row: the fibermap's TILEID, or the folder's tile name
      when the fibermap has none. */
  datatype TileId = FibermapTile(id: int) | FolderTile(name: string)

  /** One row of the flux table. */
  datatype FluxRow<T> = FluxRow(
    targetId: Option<int>,
    tileId: TileId,
    petalLoc: Option<int>,
    fluxB: seq<T>,
    fluxR: seq<T>,
    fluxZ: seq<T>,
    fluxBrz: seq<T>)

  /** One row of the wavelength table. */
  datatype WaveRow<T> = WaveRow(
    tile: string,
    night: string,
    petalFile: string,
    waveB: seq<T>,
    waveR: seq<T>,
    waveZ: seq<T>,
    waveBrz: seq<T>)

  datatype Rows<T> = Rows(flux: seq<FluxRow<T>>, wave: seq<WaveRow<T>>)

  /** A kept position past the end of a band's flux rows: the IndexError raised while
      building the flux rows of that file, which is outside the try and ends the run. */
  datatype IndexError = IndexError(folder: Folder, petal: string)

  /** What the run produces: the two row lists, or the error that ended it (then no
      table is written). */
  datatype Outcome<T> = Completed(rows: Rows<T>) | Aborted(error: IndexError)

  function NoRows<T>(): Outcome<T>
  {
    Completed(Rows([], []))
  }

  /** Running one piece of work after another: rows are appended in order, and the
      first error ends everything. */
  function Then<T>(a: Outcome<T>, b: Outcome<T>): Outcome<T>
  {
    match a
    case Aborted(_) => a
    case Completed(x) =>
      match b
      case Aborted(_) => b
      case Completed(y) => Completed(Rows(x.flux + y.flux, x.wave + y.wave))
  }

  lemma ThenAssociative<T>(a: Outcome<T>, b: Outcome<T>, c: Outcome<T>)
    ensures Then(Then(a, b), c) == Then(a, Then(b, c))
  {
  }

  /** The fibermap row reaches every band's flux rows. */
  predicate InBands<T>(sp: Spectra<T>, pos: nat)
  {
    pos < |sp.fibermap| && pos < |sp.fluxB| && pos < |sp.fluxR| && pos < |sp.fluxZ|
  }

  function TileOf(info: FibermapRow, tile: string): TileId
  {
    match info.tileId
    case Some(id) => FibermapTile(id)
    case None => FolderTile(tile)
  }

  /** The flux row of the target at fibermap position pos. */
  function TargetRow<T>(tile: string, sp: Spectra<T>, pos: nat): FluxRow<T>
    requires InBands(sp, pos)
  {
    var info := sp.fibermap[pos];
    FluxRow(info.targetId, TileOf(info, tile), info.petalLoc,
            sp.fluxB[pos], sp.fluxR[pos], sp.fluxZ[pos],
            ZipConcat(sp.fluxB, sp.fluxR, sp.fluxZ)[pos])
  }

  function FluxRows<T>(tile: string, sp: Spectra<T>, positions: seq<nat>): seq<FluxRow<T>>
    requires forall k :: 0 <= k < |positions| ==> InBands(sp, positions[k])
  {
    seq(|positions|, k requires 0 <= k < |positions| => TargetRow(tile, sp, positions[k]))
  }

  /** The wavelength row of a file. */
  function WaveRowOf<T>(folder: Folder, petal: string, sp: Spectra<T>): WaveRow<T>
  {
    WaveRow(folder.tile, folder.night, petal, sp.waveB, sp.waveR, sp.waveZ,
            Concat3(sp.waveB, sp.waveR, sp.waveZ))
  }

  /** What one file that the reader could read contributes. */
  function FileOutcome<T>(folder: Folder, petal: string, sp: Spectra<T>): Outcome<T>
  {
    var valid := ValidIndices(sp.fibermap);
    if |valid| == 0 then NoRows()
    else if exists k :: 0 <= k < |valid| && !InBands(sp, valid[k]) then
      Aborted(IndexError(folder, petal))
    else
      Completed(Rows(FluxRows(folder.tile, sp, valid), [WaveRowOf(folder, petal, sp)]))
  }

  /** What one petal file contributes; a file the reader raises on contributes nothing. */
  function PetalOutcome<T>(archive: Archive<T>, folder: Folder, petal: string): Outcome<T>
  {
    match Read(archive, folder, petal)
    case None => NoRows()
    case Some(sp) => FileOutcome(folder, petal, sp)
  }

  /** The petal files of one folder, processed in order. */
  function PetalsOutcome<T>(archive: Archive<T>, folder: Folder, petals: seq<string>): Outcome<T>
    decreases |petals|
  {
    if petals == [] then NoRows()
    else
      var n := |petals| - 1;
      Then(PetalsOutcome(archive, folder, petals[..n]), PetalOutcome(archive, folder, petals[n]))
  }

  /** What one tile/night folder contributes: nothing when it is not a directory or
      holds no coadd file. */
  function FolderOutcome<T>(archive: Archive<T>, folder: Folder): Outcome<T>
  {
    if folder !in archive.listings then NoRows()
    else
      var petals := CoaddFiles(archive.listings[folder]);
      if petals == [] then NoRows()
      else PetalsOutcome(archive, folder, petals)
  }

  /** The folders, processed in order. */
  function FoldersOutcome<T>(archive: Archive<T>, folders: seq<Folder>): Outcome<T>
    decreases |folders|
  {
    if folders == [] then NoRows()
    else
      var n := |folders| - 1;
      Then(FoldersOutcome(archive, folders[..n]), FolderOutcome(archive, folders[n]))
  }

  /** The whole run over zip(tiles_ids, nights). */
  function Dataset<T>(archive: Archive<T>, tiles: seq<string>, nights: seq<string>): Outcome<T>
  {
    FoldersOutcome(archive, Zip(tiles, nights))
  }

  /** Processing two lists of petal files one after the other is processing their
      concatenation: files contribute in the order they are iterated. */
  lemma {:induction false} PetalsAppend<T>(archive: Archive<T>, folder: Folder, a: seq<string>, b: seq<string>)
    ensures PetalsOutcome(archive, folder, a + b)
         == Then(PetalsOutcome(archive, folder, a), PetalsOutcome(archive, folder, b))
    decreases |b|
  {
    if b == [] {
      assert a + b == a;
      var x := PetalsOutcome(archive, folder, a);
      if x.Completed? {
        assert x.rows.flux + [] == x.rows.flux;
        assert x.rows.wave + [] == x.rows.wave;
      }
    } else {
      var n := |b| - 1;
      assert (a + b)[..|a + b| - 1] == a + b[..n];
      assert (a + b)[|a + b| - 1] == b[n];
      PetalsAppend(archive, folder, a, b[..n]);
      ThenAssociative(PetalsOutcome(archive, folder, a), PetalsOutcome(archive, folder, b[..n]),
                      PetalOutcome(archive, folder, b[n]));
    }
  }

  /** Processing two lists of folders one after the other is processing their
      concatenation: folders contribute in the order they are iterated. */
  lemma {:induction false} FoldersAppend<T>(archive: Archive<T>, a: seq<Folder>, b: seq<Folder>)
    ensures FoldersOutcome(archive, a + b)
         == Then(FoldersOutcome(archive, a), FoldersOutcome(archive, b))
    decreases |b|
  {
    if b == [] {
      assert a + b == a;
      var x := FoldersOutcome(archive, a);
      if x.Completed? {
        assert x.rows.flux + [] == x.rows.flux;
        assert x.rows.wave + [] == x.rows.wave;
      }
    } else {
      var n := |b| - 1;
      assert (a + b)[..|a + b| - 1] == a + b[..n];
      assert (a + b)[|a + b| - 1] == b[n];
      FoldersAppend(archive, a, b[..n]);
      ThenAssociative(FoldersOutcome(archive, a), FoldersOutcome(archive, b[..n]),
                      FolderOutcome(archive, b[n]));
    }
  }

  /** create_csv_dataset without the CSV writing: the two row lists the loops build, or
      the IndexError that escapes them. */
  method CreateCsvDataset<T>(archive: Archive<T>, tiles: seq<string>, nights: seq<string>)
    returns (out: Outcome<T>)
    ensures out == Dataset(archive, tiles, nights)
  {
    var rowsFlux: seq<FluxRow<T>>, rowsWave: seq<WaveRow<T>> := [], [];
    var folders := Zip(tiles, nights);
    var i := 0;
    while i < |folders|
      invariant 0 <= i <= |folders|
      invariant FoldersOutcome(archive, folders[..i]) == Completed(Rows(rowsFlux, rowsWave))
    {
      var folder := folders[i];
      if folder !in archive.listings {
        // the folder does not exist
        FolderSkipped(archive, folders, i);
      } else {
        var petals := CoaddFiles(archive.listings[folder]);
        if petals == [] {
          // no coadd file in the folder
          FolderSkipped(archive, folders, i);
        } else {
          FolderListed(archive, folders, i, petals);
          var next := AppendFolderRows(archive, folder, petals, rowsFlux, rowsWave);
          if next.Aborted? {
            // the IndexError escapes the loops and nothing is written
            FoldersAbortPersists(archive, folders, i + 1);
            return next;
          }
          rowsFlux, rowsWave := next.rows.flux, next.rows.wave;
        }
      }
      i := i + 1;
    }
    assert folders[..i] == folders;
    out := Completed(Rows(rowsFlux, rowsWave));
  }

  /** The loop over the petal files of one folder, appending to the rows accumulated
      so far, or meeting the IndexError that ends the run. */
  method AppendFolderRows<T>(archive: Archive<T>, folder: Folder, petals: seq<string>,
                             rowsFlux: seq<FluxRow<T>>, rowsWave: seq<WaveRow<T>>)
    returns (out: Outcome<T>)
    ensures out == Then(Completed(Rows(rowsFlux, rowsWave)), PetalsOutcome(archive, folder, petals))
  {
    ghost var done := Completed(Rows(rowsFlux, rowsWave));
    var flux, wave := rowsFlux, rowsWave;
    var j := 0;
    while j < |petals|
      invariant 0 <= j <= |petals|
      invariant Then(done, PetalsOutcome(archive, folder, petals[..j])) == Completed(Rows(flux, wave))
    {
      var petal := petals[j];
      var read := Read(archive, folder, petal);
      if read.None? {
        // the reader raised
        PetalSkipped(archive, done, folder, petals, j);
        j := j + 1;
        continue;
      }
      PetalRead(archive, done, folder, petals, j, read.value);
      var next := AppendFileRows(folder, petal, read.value, flux, wave);
      if next.Aborted? {
        PetalsAbortEnds(archive, done, folder, petals, j + 1);
        return next;
      }
      flux, wave := next.rows.flux, next.rows.wave;
      j := j + 1;
    }
    assert petals[..j] == petals;
    out := Completed(Rows(flux, wave));
  }

  /** The body of the loop over one file's petal (the reader succeeded): select the
      valid indices, append their flux rows and the file's wavelength row to the rows
      accumulated so far, or meet the IndexError of a kept position past a band's end. */
  method AppendFileRows<T>(folder: Folder, petal: string, sp: Spectra<T>,
                           rowsFlux: seq<FluxRow<T>>, rowsWave: seq<WaveRow<T>>)
    returns (out: Outcome<T>)
    ensures out == Then(Completed(Rows(rowsFlux, rowsWave)), FileOutcome(folder, petal, sp))
  {
    var valid := ValidIndices(sp.fibermap);
    if |valid| == 0 {
      FileOutcomeNoTargets(folder, petal, sp, rowsFlux, rowsWave);
      return Completed(Rows(rowsFlux, rowsWave));
    }
    var fluxBrz := ZipConcat(sp.fluxB, sp.fluxR, sp.fluxZ);
    var flux := rowsFlux;
    var k := 0;
    while k < |valid|
      invariant 0 <= k <= |valid|
      invariant forall m :: 0 <= m < k ==> InBands(sp, valid[m])
      invariant flux == rowsFlux + FluxRows(folder.tile, sp, valid[..k])
    {
      var pos := valid[k];
      if pos >= |sp.fluxB| || pos >= |sp.fluxR| || pos >= |sp.fluxZ| {
        FileOutcomeAborts(folder, petal, sp, k, rowsFlux, rowsWave);
        return Aborted(IndexError(folder, petal));
      }
      var info := sp.fibermap[pos];
      var row := FluxRow(info.targetId, TileOf(info, folder.tile), info.petalLoc,
                         sp.fluxB[pos], sp.fluxR[pos], sp.fluxZ[pos], fluxBrz[pos]);
      FluxRowsStep(folder.tile, sp, valid, k, row);
      flux := flux + [row];
      k := k + 1;
    }
    assert valid[..k] == valid;
    var waveBrz := Concat3(sp.waveB, sp.waveR, sp.waveZ);
    out := Completed(Rows(flux, rowsWave + [WaveRow(folder.tile, folder.night, petal,
                                                     sp.waveB, sp.waveR, sp.waveZ, waveBrz)]));
    FileOutcomeKept(folder, petal, sp, rowsFlux, rowsWave);
  }

  lemma FileOutcomeNoTargets<T>(folder: Folder, petal: string, sp: Spectra<T>,
                               rowsFlux: seq<FluxRow<T>>, rowsWave: seq<WaveRow<T>>)
    requires |ValidIndices(sp.fibermap)| == 0
    ensures Then(Completed(Rows(rowsFlux, rowsWave)), FileOutcome(folder, petal, sp))
         == Completed(Rows(rowsFlux, rowsWave))
  {
  }

  lemma FileOutcomeAborts<T>(folder: Folder, petal: string, sp: Spectra<T>, k: nat,
                             rowsFlux: seq<FluxRow<T>>, rowsWave: seq<WaveRow<T>>)
    requires k < |ValidIndices(sp.fibermap)| && !InBands(sp, ValidIndices(sp.fibermap)[k])
    ensures Then(Completed(Rows(rowsFlux, rowsWave)), FileOutcome(folder, petal, sp))
         == Aborted(IndexError(folder, petal))
  {
  }

  lemma FileOutcomeKept<T>(folder: Folder, petal: string, sp: Spectra<T>,
                           rowsFlux: seq<FluxRow<T>>, rowsWave: seq<WaveRow<T>>)
    requires |ValidIndices(sp.fibermap)| > 0
    requires forall m :: 0 <= m < |ValidIndices(sp.fibermap)| ==> InBands(sp, ValidIndices(sp.fibermap)[m])
    ensures Then(Completed(Rows(rowsFlux, rowsWave)), FileOutcome(folder, petal, sp))
         == Completed(Rows(rowsFlux + FluxRows(folder.tile, sp, ValidIndices(sp.fibermap)),
                           rowsWave + [WaveRowOf(folder, petal, sp)]))
  {
  }

  lemma FluxRowsStep<T>(tile: string, sp: Spectra<T>, valid: seq<nat>, k: nat, row: FluxRow<T>)
    requires k < |valid|
    requires forall m :: 0 <= m <= k ==> InBands(sp, valid[m])
    requires row == TargetRow(tile, sp, valid[k])
    ensures FluxRows(tile, sp, valid[..k + 1]) == FluxRows(tile, sp, valid[..k]) + [row]
  {
  }

  lemma ThenNoRows<T>(a: Outcome<T>)
    ensures Then(a, NoRows()) == a
  {
  }

  /** A folder that is missing or holds no coadd file leaves the rows as they were. */
  lemma FolderSkipped<T>(archive: Archive<T>, folders: seq<Folder>, i: nat)
    requires i < |folders|
    requires folders[i] !in archive.listings || CoaddFiles(archive.listings[folders[i]]) == []
    ensures FoldersOutcome(archive, folders[..i + 1]) == FoldersOutcome(archive, folders[..i])
  {
    FoldersStep(archive, folders, i);
    ThenNoRows(FoldersOutcome(archive, folders[..i]));
  }

  /** A folder with coadd files adds what its petal files add. */
  lemma FolderListed<T>(archive: Archive<T>, folders: seq<Folder>, i: nat, petals: seq<string>)
    requires i < |folders| && folders[i] in archive.listings
    requires petals == CoaddFiles(archive.listings[folders[i]]) && petals != []
    ensures FoldersOutcome(archive, folders[..i + 1])
         == Then(FoldersOutcome(archive, folders[..i]), PetalsOutcome(archive, folders[i], petals))
  {
    FoldersStep(archive, folders, i);
  }

  /** A petal file the reader raises on leaves the rows as they were. */
  lemma PetalSkipped<T>(archive: Archive<T>, done: Outcome<T>, folder: Folder, petals: seq<string>, j: nat)
    requires j < |petals| && Read(archive, folder, petals[j]).None?
    ensures Then(done, PetalsOutcome(archive, folder, petals[..j + 1]))
         == Then(done, PetalsOutcome(archive, folder, petals[..j]))
  {
    PetalsStepAfter(archive, done, folder, petals, j);
    ThenNoRows(Then(done, PetalsOutcome(archive, folder, petals[..j])));
  }

  /** A petal file the reader reads adds what its contents add. */
  lemma PetalRead<T>(archive: Archive<T>, done: Outcome<T>, folder: Folder, petals: seq<string>, j: nat,
                     sp: Spectra<T>)
    requires j < |petals| && Read(archive, folder, petals[j]) == Some(sp)
    ensures Then(done, PetalsOutcome(archive, folder, petals[..j + 1]))
         == Then(Then(done, PetalsOutcome(archive, folder, petals[..j])), FileOutcome(folder, petals[j], sp))
  {
    PetalsStepAfter(archive, done, folder, petals, j);
  }

  /** Processing one more petal file after what was done before. */
  lemma PetalsStepAfter<T>(archive: Archive<T>, done: Outcome<T>, folder: Folder, petals: seq<string>, j: nat)
    requires j < |petals|
    ensures Then(done, PetalsOutcome(archive, folder, petals[..j + 1]))
         == Then(Then(done, PetalsOutcome(archive, folder, petals[..j])), PetalOutcome(archive, folder, petals[j]))
  {
    PetalsStep(archive, folder, petals, j);
    ThenAssociative(done, PetalsOutcome(archive, folder, petals[..j]), PetalOutcome(archive, folder, petals[j]));
  }

  /** Processing one more petal file after a prefix of them. */
  lemma PetalsStep<T>(archive: Archive<T>, folder: Folder, petals: seq<string>, j: nat)
    requires j < |petals|
    ensures PetalsOutcome(archive, folder, petals[..j + 1])
         == Then(PetalsOutcome(archive, folder, petals[..j]), PetalOutcome(archive, folder, petals[j]))
  {
    assert petals[..j + 1][..j] == petals[..j];
  }

  /** Processing one more folder after a prefix of them. */
  lemma FoldersStep<T>(archive: Archive<T>, folders: seq<Folder>, i: nat)
    requires i < |folders|
    ensures FoldersOutcome(archive, folders[..i + 1])
         == Then(FoldersOutcome(archive, folders[..i]), FolderOutcome(archive, folders[i]))
  {
    assert folders[..i + 1][..i] == folders[..i];
  }

  /** An error in a prefix of the petal files is the outcome of all of them. */
  lemma PetalsAbortPersists<T>(archive: Archive<T>, folder: Folder, petals: seq<string>, j: nat)
    requires j <= |petals|
    requires PetalsOutcome(archive, folder, petals[..j]).Aborted?
    ensures PetalsOutcome(archive, folder, petals) == PetalsOutcome(archive, folder, petals[..j])
  {
    PetalsAppend(archive, folder, petals[..j], petals[j..]);
    assert petals[..j] + petals[j..] == petals;
  }

  /** An error in a prefix of the folders is the outcome of all of them. */
  lemma FoldersAbortPersists<T>(archive: Archive<T>, folders: seq<Folder>, i: nat)
    requires i <= |folders|
    requires FoldersOutcome(archive, folders[..i]).Aborted?
    ensures FoldersOutcome(archive, folders) == FoldersOutcome(archive, folders[..i])
  {
    FoldersAppend(archive, folders[..i], folders[i..]);
    assert folders[..i] + folders[i..] == folders;
  }

  /** Once the petal files up to j abort, all of them abort the same way. */
  lemma PetalsAbortEnds<T>(archive: Archive<T>, done: Outcome<T>, folder: Folder, petals: seq<string>, j: nat)
    requires j <= |petals|
    requires Then(done, PetalsOutcome(archive, folder, petals[..j])).Aborted?
    ensures Then(done, PetalsOutcome(archive, folder, petals))
         == Then(done, PetalsOutcome(archive, folder, petals[..j]))
  {
    if PetalsOutcome(archive, folder, petals[..j]).Aborted? {
      PetalsAbortPersists(archive, folder, petals, j);
    }
  }
}
