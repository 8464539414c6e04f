/** What the flux and wavelength tables of a run are guaranteed to hold. */
module DatasetProperties {
  import opened SpectraModel
  import opened Selection
  import opened Bands
  import opened WriteDataset

  /** The flux row k of a file describes the target at its k-th valid position. */
  ghost predicate RowOfTarget<T>(row: FluxRow<T>, tile: string, sp: Spectra<T>, pos: nat)
  {
    && InBands(sp, pos)
    && Eligible(sp.fibermap[pos])
    && row.fluxB == sp.fluxB[pos]
    && row.fluxR == sp.fluxR[pos]
    && row.fluxZ == sp.fluxZ[pos]
    && row.fluxBrz == sp.fluxB[pos] + sp.fluxR[pos] + sp.fluxZ[pos]
    && row.targetId == sp.fibermap[pos].targetId
    && row.petalLoc == sp.fibermap[pos].petalLoc
    && (row.tileId == FolderTile(tile) <==> sp.fibermap[pos].tileId.None?)
    && (sp.fibermap[pos].tileId.Some? ==> row.tileId == FibermapTile(sp.fibermap[pos].tileId.value))
  }

  /** One file's contribution: one flux row per valid index, in fibermap order, each
      built from the same position of every band; no wavelength row when no target is
      kept, otherwise exactly one, carrying the folder's tile and night and the petal
      file name, with the three grids concatenated in the order b, r, z. */
  lemma FileRows<T>(folder: Folder, petal: string, sp: Spectra<T>)
    requires FileOutcome(folder, petal, sp).Completed?
    ensures var rows := FileOutcome(folder, petal, sp).rows;
            var valid := ValidIndices(sp.fibermap);
            && |rows.flux| == |valid| == CountEligible(sp.fibermap)
            && (forall k :: 0 <= k < |valid| ==> RowOfTarget(rows.flux[k], folder.tile, sp, valid[k]))
            && |rows.wave| == (if |valid| == 0 then 0 else 1)
            && (forall w :: w in rows.wave ==>
                  && w.tile == folder.tile && w.night == folder.night && w.petalFile == petal
                  && w.waveB == sp.waveB && w.waveR == sp.waveR && w.waveZ == sp.waveZ
                  && w.waveBrz == sp.waveB + sp.waveR + sp.waveZ
                  && |w.waveBrz| == |sp.waveB| + |sp.waveR| + |sp.waveZ|)
  {
    var valid := ValidIndices(sp.fibermap);
    ValidIndicesCount(sp.fibermap);
    if |valid| > 0 {
      var rows := FileOutcome(folder, petal, sp).rows;
      forall k | 0 <= k < |valid|
        ensures RowOfTarget(rows.flux[k], folder.tile, sp, valid[k])
      {
        assert InBands(sp, valid[k]);
      }
    }
  }

  /** zip truncates the concatenated flux rows to the shortest band; a kept position
      past that end raises, so a file ends the run exactly when its last valid index
      is not below the number of concatenated rows. */
  lemma FileAbortsIffTruncated<T>(folder: Folder, petal: string, sp: Spectra<T>)
    ensures var valid := ValidIndices(sp.fibermap);
            FileOutcome(folder, petal, sp).Aborted?
            <==> |valid| > 0 && valid[|valid| - 1] >= |ZipConcat(sp.fluxB, sp.fluxR, sp.fluxZ)|
  {
  }

  /** When every target's band rows are as long as the band's wavelength grid, every
      concatenated flux row of a file is as long as its concatenated grid. */
  lemma FileAligned<T>(folder: Folder, petal: string, sp: Spectra<T>)
    requires FileOutcome(folder, petal, sp).Completed?
    requires forall i :: 0 <= i < |sp.fluxB| ==> |sp.fluxB[i]| == |sp.waveB|
    requires forall i :: 0 <= i < |sp.fluxR| ==> |sp.fluxR[i]| == |sp.waveR|
    requires forall i :: 0 <= i < |sp.fluxZ| ==> |sp.fluxZ[i]| == |sp.waveZ|
    ensures var rows := FileOutcome(folder, petal, sp).rows;
            forall row, w :: row in rows.flux && w in rows.wave ==> |row.fluxBrz| == |w.waveBrz|
  {
  }

  /** Every row holds its three bands concatenated in the order b, r, z. */
  ghost predicate BandsConcatenated<T>(rows: Rows<T>)
  {
    && (forall row :: row in rows.flux ==> row.fluxBrz == row.fluxB + row.fluxR + row.fluxZ)
    && (forall w :: w in rows.wave ==> w.waveBrz == w.waveB + w.waveR + w.waveZ)
  }

  lemma ThenConcatenated<T>(a: Outcome<T>, b: Outcome<T>)
    requires a.Completed? ==> BandsConcatenated(a.rows)
    requires b.Completed? ==> BandsConcatenated(b.rows)
    ensures Then(a, b).Completed? ==> BandsConcatenated(Then(a, b).rows)
  {
  }

  lemma FileConcatenated<T>(folder: Folder, petal: string, sp: Spectra<T>)
    ensures FileOutcome(folder, petal, sp).Completed? ==> BandsConcatenated(FileOutcome(folder, petal, sp).rows)
  {
  }

  lemma {:induction false} PetalsConcatenated<T>(archive: Archive<T>, folder: Folder, petals: seq<string>)
    ensures var o := PetalsOutcome(archive, folder, petals); o.Completed? ==> BandsConcatenated(o.rows)
    decreases |petals|
  {
    if petals != [] {
      var n := |petals| - 1;
      PetalsConcatenated(archive, folder, petals[..n]);
      var read := Read(archive, folder, petals[n]);
      if read.Some? {
        FileConcatenated(folder, petals[n], read.value);
      }
      ThenConcatenated(PetalsOutcome(archive, folder, petals[..n]), PetalOutcome(archive, folder, petals[n]));
    }
  }

  lemma {:induction false} FoldersConcatenated<T>(archive: Archive<T>, folders: seq<Folder>)
    ensures var o := FoldersOutcome(archive, folders); o.Completed? ==> BandsConcatenated(o.rows)
    decreases |folders|
  {
    if folders != [] {
      var n := |folders| - 1;
      FoldersConcatenated(archive, folders[..n]);
      var folder := folders[n];
      if folder in archive.listings {
        PetalsConcatenated(archive, folder, CoaddFiles(archive.listings[folder]));
      }
      ThenConcatenated(FoldersOutcome(archive, folders[..n]), FolderOutcome(archive, folder));
    }
  }

  /** In a completed run every flux row is FLUX_B ++ FLUX_R ++ FLUX_Z and every
      wavelength row is WAVE_B ++ WAVE_R ++ WAVE_Z. */
  lemma DatasetBandsConcatenated<T>(archive: Archive<T>, tiles: seq<string>, nights: seq<string>)
    requires Dataset(archive, tiles, nights).Completed?
    ensures BandsConcatenated(Dataset(archive, tiles, nights).rows)
  {
    FoldersConcatenated(archive, Zip(tiles, nights));
  }

  /** Where a wavelength row comes from: a petal file of the given folder whose name
      starts with coadd-, that the reader read, that kept at least one target, and
      whose grids the row carries. */
  ghost predicate WaveRowFrom<T>(archive: Archive<T>, folder: Folder, w: WaveRow<T>)
  {
    var path := PetalPath(folder, w.petalFile);
    && w.tile == folder.tile && w.night == folder.night
    && folder in archive.listings
    && w.petalFile in archive.listings[folder] && IsCoadd(w.petalFile)
    && path in archive.readable
    && |ValidIndices(archive.readable[path].fibermap)| > 0
    && w == WaveRowOf(folder, w.petalFile, archive.readable[path])
  }

  lemma {:induction false} PetalsWaveRowsFrom<T>(archive: Archive<T>, folder: Folder, petals: seq<string>)
    requires folder in archive.listings
    requires forall p :: p in petals ==> p in CoaddFiles(archive.listings[folder])
    ensures var o := PetalsOutcome(archive, folder, petals);
            o.Completed? ==> forall w :: w in o.rows.wave ==> WaveRowFrom(archive, folder, w)
    decreases |petals|
  {
    if petals != [] {
      var n := |petals| - 1;
      PetalsWaveRowsFrom(archive, folder, petals[..n]);
      var petal := petals[n];
      assert petal in petals;
      assert petal in archive.listings[folder] && IsCoadd(petal);
      var read := Read(archive, folder, petal);
      var o := PetalsOutcome(archive, folder, petals);
      if read.Some? && o.Completed? {
        var prefix := PetalsOutcome(archive, folder, petals[..n]);
        var file := FileOutcome(folder, petal, read.value);
        FileRows(folder, petal, read.value);
        assert o.rows.wave == prefix.rows.wave + file.rows.wave;
        forall w | w in file.rows.wave ensures WaveRowFrom(archive, folder, w) {
          assert w.petalFile == petal;
        }
      }
    }
  }

  lemma {:induction false} FoldersWaveRowsFrom<T>(archive: Archive<T>, folders: seq<Folder>)
    ensures var o := FoldersOutcome(archive, folders);
            o.Completed? ==> forall w :: w in o.rows.wave ==>
              Folder(w.tile, w.night) in folders && WaveRowFrom(archive, Folder(w.tile, w.night), w)
    decreases |folders|
  {
    if folders != [] {
      var n := |folders| - 1;
      FoldersWaveRowsFrom(archive, folders[..n]);
      var folder := folders[n];
      if folder in archive.listings {
        var petals := CoaddFiles(archive.listings[folder]);
        PetalsWaveRowsFrom(archive, folder, petals);
        var o := PetalsOutcome(archive, folder, petals);
        if o.Completed? {
          forall w | w in o.rows.wave ensures Folder(w.tile, w.night) == folder {
            assert WaveRowFrom(archive, folder, w);
          }
        }
      }
    }
  }

  /** Every wavelength row of a completed run belongs to one of the zipped tile/night
      folders, to a coadd-prefixed file the reader read, and to a file that kept at
      least one target: missing folders, folders without coadd files, unreadable files,
      other files and files without valid targets add no wavelength row. */
  lemma DatasetWaveRowsFrom<T>(archive: Archive<T>, tiles: seq<string>, nights: seq<string>)
    requires Dataset(archive, tiles, nights).Completed?
    ensures forall w :: w in Dataset(archive, tiles, nights).rows.wave ==>
              Folder(w.tile, w.night) in Zip(tiles, nights) && WaveRowFrom(archive, Folder(w.tile, w.night), w)
  {
    FoldersWaveRowsFrom(archive, Zip(tiles, nights));
  }

  /** The file that ends a run: a coadd-prefixed file of the folder that the reader
      read and that has a valid index past the end of its shortest band. */
  ghost predicate AbortFrom<T>(archive: Archive<T>, e: IndexError)
  {
    var path := PetalPath(e.folder, e.petal);
    && e.folder in archive.listings
    && e.petal in archive.listings[e.folder] && IsCoadd(e.petal)
    && path in archive.readable
    && var sp := archive.readable[path];
       var valid := ValidIndices(sp.fibermap);
       |valid| > 0 && valid[|valid| - 1] >= |ZipConcat(sp.fluxB, sp.fluxR, sp.fluxZ)|
  }

  lemma {:induction false} PetalsAbortFrom<T>(archive: Archive<T>, folder: Folder, petals: seq<string>)
    requires folder in archive.listings
    requires forall p :: p in petals ==> p in CoaddFiles(archive.listings[folder])
    ensures var o := PetalsOutcome(archive, folder, petals);
            o.Aborted? ==> o.error.folder == folder && AbortFrom(archive, o.error)
    decreases |petals|
  {
    if petals != [] {
      var n := |petals| - 1;
      PetalsAbortFrom(archive, folder, petals[..n]);
      var petal := petals[n];
      assert petal in petals;
      var read := Read(archive, folder, petal);
      if read.Some? {
        FileAbortsIffTruncated(folder, petal, read.value);
      }
    }
  }

  lemma {:induction false} FoldersAbortFrom<T>(archive: Archive<T>, folders: seq<Folder>)
    ensures var o := FoldersOutcome(archive, folders);
            o.Aborted? ==> o.error.folder in folders && AbortFrom(archive, o.error)
    decreases |folders|
  {
    if folders != [] {
      var n := |folders| - 1;
      FoldersAbortFrom(archive, folders[..n]);
      var folder := folders[n];
      if folder in archive.listings {
        PetalsAbortFrom(archive, folder, CoaddFiles(archive.listings[folder]));
      }
    }
  }

  /** A run that ends in an IndexError names one of the zipped folders and a coadd
      file in it that the reader read, whose last valid index is past the end of the
      concatenated flux rows (the shortest band). */
  lemma DatasetAbortFrom<T>(archive: Archive<T>, tiles: seq<string>, nights: seq<string>)
    requires Dataset(archive, tiles, nights).Aborted?
    ensures var e := Dataset(archive, tiles, nights).error;
            e.folder in Zip(tiles, nights) && AbortFrom(archive, e)
  {
    FoldersAbortFrom(archive, Zip(tiles, nights));
  }

  /** Whenever b completes, so does a, and a's rows are among b's. */
  ghost predicate Within<T>(a: Outcome<T>, b: Outcome<T>)
  {
    b.Completed? ==>
      && a.Completed?
      && (forall row :: row in a.rows.flux ==> row in b.rows.flux)
      && (forall w :: w in a.rows.wave ==> w in b.rows.wave)
  }

  lemma ThenWithin<T>(a: Outcome<T>, b: Outcome<T>)
    ensures Within(a, Then(a, b)) && Within(b, Then(a, b))
  {
  }

  /** Each petal file's rows are among its folder's rows, and its error ends the folder. */
  lemma PetalWithinFolder<T>(archive: Archive<T>, folder: Folder, petals: seq<string>, j: nat)
    requires j < |petals|
    ensures Within(PetalOutcome(archive, folder, petals[j]), PetalsOutcome(archive, folder, petals))
  {
    PetalsAppend(archive, folder, petals[..j + 1], petals[j + 1..]);
    assert petals[..j + 1] + petals[j + 1..] == petals;
    PetalsStep(archive, folder, petals, j);
    ThenWithin(PetalsOutcome(archive, folder, petals[..j]), PetalOutcome(archive, folder, petals[j]));
    ThenWithin(PetalsOutcome(archive, folder, petals[..j + 1]), PetalsOutcome(archive, folder, petals[j + 1..]));
  }

  /** Each folder's rows are among the run's rows, and its error ends the run. */
  lemma FolderWithinRun<T>(archive: Archive<T>, folders: seq<Folder>, i: nat)
    requires i < |folders|
    ensures Within(FolderOutcome(archive, folders[i]), FoldersOutcome(archive, folders))
  {
    FoldersAppend(archive, folders[..i + 1], folders[i + 1..]);
    assert folders[..i + 1] + folders[i + 1..] == folders;
    FoldersStep(archive, folders, i);
    ThenWithin(FoldersOutcome(archive, folders[..i]), FolderOutcome(archive, folders[i]));
    ThenWithin(FoldersOutcome(archive, folders[..i + 1]), FoldersOutcome(archive, folders[i + 1..]));
  }

  /** No coadd file of a zipped folder is passed over: when the run completes, every
      such file the reader reads completed too, each of its kept targets has its flux
      row in the flux table, and its wavelength row is in the wavelength table when it
      kept any target. */
  lemma DatasetRowsComplete<T>(archive: Archive<T>, tiles: seq<string>, nights: seq<string>,
                               i: nat, petal: string)
    requires i < |Zip(tiles, nights)| && Zip(tiles, nights)[i] in archive.listings
    requires petal in archive.listings[Zip(tiles, nights)[i]] && IsCoadd(petal)
    requires PetalPath(Zip(tiles, nights)[i], petal) in archive.readable
    ensures var folder := Zip(tiles, nights)[i];
            var sp := archive.readable[PetalPath(folder, petal)];
            var valid := ValidIndices(sp.fibermap);
            var run := Dataset(archive, tiles, nights);
            run.Completed? ==>
              && FileOutcome(folder, petal, sp).Completed?
              && (forall k :: 0 <= k < |valid| ==>
                    InBands(sp, valid[k]) && TargetRow(folder.tile, sp, valid[k]) in run.rows.flux)
              && (|valid| > 0 ==> WaveRowOf(folder, petal, sp) in run.rows.wave)
  {
    var folders := Zip(tiles, nights);
    var folder := folders[i];
    var petals := CoaddFiles(archive.listings[folder]);
    assert petal in petals;
    var j :| 0 <= j < |petals| && petals[j] == petal;
    PetalWithinFolder(archive, folder, petals, j);
    FolderWithinRun(archive, folders, i);
    var sp := archive.readable[PetalPath(folder, petal)];
    var valid := ValidIndices(sp.fibermap);
    var run := Dataset(archive, tiles, nights);
    if run.Completed? && |valid| > 0 {
      var rows := FileOutcome(folder, petal, sp).rows;
      forall k | 0 <= k < |valid|
        ensures InBands(sp, valid[k]) && TargetRow(folder.tile, sp, valid[k]) in run.rows.flux
      {
        assert rows.flux[k] == TargetRow(folder.tile, sp, valid[k]);
      }
      assert rows.wave[0] == WaveRowOf(folder, petal, sp);
    }
  }

  /** A coadd file of a zipped folder that the reader reads and whose valid indices run
      past its shortest band ends the whole run with an IndexError. */
  lemma DatasetAbortsOnTruncatedFile<T>(archive: Archive<T>, tiles: seq<string>, nights: seq<string>,
                                        i: nat, petal: string)
    requires i < |Zip(tiles, nights)| && Zip(tiles, nights)[i] in archive.listings
    requires petal in archive.listings[Zip(tiles, nights)[i]] && IsCoadd(petal)
    requires PetalPath(Zip(tiles, nights)[i], petal) in archive.readable
    requires var sp := archive.readable[PetalPath(Zip(tiles, nights)[i], petal)];
             var valid := ValidIndices(sp.fibermap);
             |valid| > 0 && valid[|valid| - 1] >= |ZipConcat(sp.fluxB, sp.fluxR, sp.fluxZ)|
    ensures Dataset(archive, tiles, nights).Aborted?
  {
    var folder := Zip(tiles, nights)[i];
    FileAbortsIffTruncated(folder, petal, archive.readable[PetalPath(folder, petal)]);
    DatasetRowsComplete(archive, tiles, nights, i, petal);
  }

  lemma {:induction false} PetalsAbortFirst<T>(archive: Archive<T>, folder: Folder, petals: seq<string>)
    returns (j: nat)
    requires PetalsOutcome(archive, folder, petals).Aborted?
    ensures j < |petals|
    ensures PetalsOutcome(archive, folder, petals[..j]).Completed?
    ensures PetalOutcome(archive, folder, petals[j]) == PetalsOutcome(archive, folder, petals)
    decreases |petals|
  {
    var n := |petals| - 1;
    if PetalsOutcome(archive, folder, petals[..n]).Aborted? {
      j := PetalsAbortFirst(archive, folder, petals[..n]);
      assert petals[..n][..j] == petals[..j];
    } else {
      j := n;
    }
  }

  lemma {:induction false} FoldersAbortFirst<T>(archive: Archive<T>, folders: seq<Folder>)
    returns (i: nat)
    requires FoldersOutcome(archive, folders).Aborted?
    ensures i < |folders|
    ensures FoldersOutcome(archive, folders[..i]).Completed?
    ensures FolderOutcome(archive, folders[i]) == FoldersOutcome(archive, folders)
    decreases |folders|
  {
    var n := |folders| - 1;
    if FoldersOutcome(archive, folders[..n]).Aborted? {
      i := FoldersAbortFirst(archive, folders[..n]);
      assert folders[..n][..i] == folders[..i];
    } else {
      i := n;
    }
  }

  /** A run that ends in an IndexError ends at the first coadd file, in iteration order,
      that raises: every folder before it and every coadd file before it in its folder
      completed, and the error names that file, which the reader read and whose own
      outcome is the error. */
  lemma DatasetAbortFirst<T>(archive: Archive<T>, tiles: seq<string>, nights: seq<string>)
    returns (i: nat, j: nat)
    requires Dataset(archive, tiles, nights).Aborted?
    ensures i < |Zip(tiles, nights)|
    ensures FoldersOutcome(archive, Zip(tiles, nights)[..i]).Completed?
    ensures var folder := Zip(tiles, nights)[i];
            && folder in archive.listings
            && j < |CoaddFiles(archive.listings[folder])|
            && var petals := CoaddFiles(archive.listings[folder]);
               && PetalsOutcome(archive, folder, petals[..j]).Completed?
               && Dataset(archive, tiles, nights).error == IndexError(folder, petals[j])
               && PetalPath(folder, petals[j]) in archive.readable
               && FileOutcome(folder, petals[j], archive.readable[PetalPath(folder, petals[j])]).Aborted?
  {
    var folders := Zip(tiles, nights);
    i := FoldersAbortFirst(archive, folders);
    var folder := folders[i];
    var petals := CoaddFiles(archive.listings[folder]);
    j := PetalsAbortFirst(archive, folder, petals);
    PetalsAbortFrom(archive, folder, petals);
  }

  /** Where a flux row comes from: a kept position of a coadd-prefixed petal file of the
      folder that the reader read, whose target the row describes. */
  ghost predicate FluxRowAt<T>(archive: Archive<T>, folder: Folder, petal: string, pos: nat, row: FluxRow<T>)
  {
    var path := PetalPath(folder, petal);
    && folder in archive.listings
    && petal in archive.listings[folder] && IsCoadd(petal)
    && path in archive.readable
    && pos in ValidIndices(archive.readable[path].fibermap)
    && RowOfTarget(row, folder.tile, archive.readable[path], pos)
  }

  lemma {:induction false} PetalsFluxRowsFrom<T>(archive: Archive<T>, folder: Folder, petals: seq<string>)
    requires folder in archive.listings
    requires forall p :: p in petals ==> p in CoaddFiles(archive.listings[folder])
    ensures var o := PetalsOutcome(archive, folder, petals);
            o.Completed? ==> forall row :: row in o.rows.flux ==>
              exists petal, pos :: FluxRowAt(archive, folder, petal, pos, row)
    decreases |petals|
  {
    if petals != [] {
      var n := |petals| - 1;
      PetalsFluxRowsFrom(archive, folder, petals[..n]);
      var petal := petals[n];
      assert petal in petals;
      var read := Read(archive, folder, petal);
      var o := PetalsOutcome(archive, folder, petals);
      if read.Some? && o.Completed? {
        var prefix := PetalsOutcome(archive, folder, petals[..n]);
        var file := FileOutcome(folder, petal, read.value);
        FileRows(folder, petal, read.value);
        assert o.rows.flux == prefix.rows.flux + file.rows.flux;
        var valid := ValidIndices(read.value.fibermap);
        forall row | row in file.rows.flux
          ensures exists p, pos :: FluxRowAt(archive, folder, p, pos, row)
        {
          var k :| 0 <= k < |file.rows.flux| && file.rows.flux[k] == row;
          assert FluxRowAt(archive, folder, petal, valid[k], row);
        }
      }
    }
  }

  lemma {:induction false} FoldersFluxRowsFrom<T>(archive: Archive<T>, folders: seq<Folder>)
    ensures var o := FoldersOutcome(archive, folders);
            o.Completed? ==> forall row :: row in o.rows.flux ==>
              exists folder, petal, pos :: folder in folders && FluxRowAt(archive, folder, petal, pos, row)
    decreases |folders|
  {
    if folders != [] {
      var n := |folders| - 1;
      FoldersFluxRowsFrom(archive, folders[..n]);
      var folder := folders[n];
      var o := FoldersOutcome(archive, folders);
      if o.Completed? {
        var prefix := FoldersOutcome(archive, folders[..n]);
        var last := FolderOutcome(archive, folder);
        assert o.rows.flux == prefix.rows.flux + last.rows.flux;
        forall row | row in prefix.rows.flux
          ensures exists f, p, pos :: f in folders && FluxRowAt(archive, f, p, pos, row)
        {
          var f, p, pos :| f in folders[..n] && FluxRowAt(archive, f, p, pos, row);
          assert f in folders;
        }
        if folder in archive.listings {
          PetalsFluxRowsFrom(archive, folder, CoaddFiles(archive.listings[folder]));
          forall row | row in last.rows.flux
            ensures exists f, p, pos :: f in folders && FluxRowAt(archive, f, p, pos, row)
          {
            var p, pos :| FluxRowAt(archive, folder, p, pos, row);
            assert folder in folders;
          }
        }
      }
    }
  }

  /** Every flux row of a completed run describes a kept target (COADD_FIBERSTATUS 0,
      DESI_TARGET non-zero) of a coadd-prefixed file of one of the zipped folders that
      the reader read: it copies that target's bands and fibermap cells. */
  lemma DatasetFluxRowsFrom<T>(archive: Archive<T>, tiles: seq<string>, nights: seq<string>)
    requires Dataset(archive, tiles, nights).Completed?
    ensures forall row :: row in Dataset(archive, tiles, nights).rows.flux ==>
              exists folder, petal, pos :: folder in Zip(tiles, nights) && FluxRowAt(archive, folder, petal, pos, row)
  {
    FoldersFluxRowsFrom(archive, Zip(tiles, nights));
  }

  /** A missing folder, or one with no coadd file, adds no row and does not stop the
      run: the outcome is that of the run without it. */
  lemma SkippedFolderAddsNothing<T>(archive: Archive<T>, folders: seq<Folder>, i: nat)
    requires i < |folders|
    requires folders[i] !in archive.listings || CoaddFiles(archive.listings[folders[i]]) == []
    ensures FoldersOutcome(archive, folders) == FoldersOutcome(archive, folders[..i] + folders[i + 1..])
  {
    FoldersAppend(archive, folders[..i + 1], folders[i + 1..]);
    assert folders[..i + 1] + folders[i + 1..] == folders;
    FolderSkipped(archive, folders, i);
    FoldersAppend(archive, folders[..i], folders[i + 1..]);
  }

  /** A petal file the reader raises on, or one without valid targets, adds no row and
      does not stop the run: the outcome is that of the folder without it. */
  lemma SkippedPetalAddsNothing<T>(archive: Archive<T>, folder: Folder, petals: seq<string>, j: nat)
    requires j < |petals|
    requires Read(archive, folder, petals[j]).None?
          || |ValidIndices(Read(archive, folder, petals[j]).value.fibermap)| == 0
    ensures PetalsOutcome(archive, folder, petals)
         == PetalsOutcome(archive, folder, petals[..j] + petals[j + 1..])
  {
    var done := PetalsOutcome(archive, folder, petals[..j]);
    PetalsAppend(archive, folder, petals[..j + 1], petals[j + 1..]);
    assert petals[..j + 1] + petals[j + 1..] == petals;
    PetalsStep(archive, folder, petals, j);
    ThenNoRows(done);
    PetalsAppend(archive, folder, petals[..j], petals[j + 1..]);
  }

  lemma {:induction false} PetalsReadOnlyCoadd<T>(a1: Archive<T>, a2: Archive<T>, folder: Folder, petals: seq<string>)
    requires forall p :: p in petals ==> Read(a1, folder, p) == Read(a2, folder, p)
    ensures PetalsOutcome(a1, folder, petals) == PetalsOutcome(a2, folder, petals)
    decreases |petals|
  {
    if petals != [] {
      var n := |petals| - 1;
      PetalsReadOnlyCoadd(a1, a2, folder, petals[..n]);
      assert petals[n] in petals;
    }
  }

  /** Files whose names do not start with coadd- are never read: two data trees with
      the same listings whose coadd files read the same give the same run. */
  lemma {:induction false} OnlyCoaddFilesRead<T>(a1: Archive<T>, a2: Archive<T>, folders: seq<Folder>)
    requires a1.listings == a2.listings
    requires forall folder, petal :: IsCoadd(petal) ==> Read(a1, folder, petal) == Read(a2, folder, petal)
    ensures FoldersOutcome(a1, folders) == FoldersOutcome(a2, folders)
    decreases |folders|
  {
    if folders != [] {
      var n := |folders| - 1;
      OnlyCoaddFilesRead(a1, a2, folders[..n]);
      var folder := folders[n];
      if folder in a1.listings {
        PetalsReadOnlyCoadd(a1, a2, folder, CoaddFiles(a1.listings[folder]));
      }
    }
  }

  /** Three targets with fibre status [0, 0, 1] and target bits [2, 0, 4]: only the
      first is kept. */
  lemma OneSurvivor()
    ensures ValidIndices([FibermapRow(None, None, None, 0, 2),
                          FibermapRow(None, None, None, 0, 0),
                          FibermapRow(None, None, None, 1, 4)]) == [0]
  {
    var fm := [FibermapRow(None, None, None, 0, 2),
               FibermapRow(None, None, None, 0, 0),
               FibermapRow(None, None, None, 1, 4)];
    var m := Mask(fm);
    assert m == [true, false, false];
    assert m[..2][..1][..0] == [];
    assert TrueIndices(m[..2][..1]) == [0];
    assert TrueIndices(m[..2]) == [0];
  }
}
