# DESI coadd → CSV dataset writer, modelled in Dafny

This project models `create_csv_dataset` in `scripts/write_dataset.py`. The function
walks the tile/night folders of a DESI data tree. In each folder it reads every petal
file whose name starts with `coadd-`. It keeps the targets whose `COADD_FIBERSTATUS`
is 0 and whose `DESI_TARGET` is non-zero. For each kept target it appends one row to the
flux table: the target's b, r and z flux, and their concatenation in the order b, r, z.
For each file that kept any target it appends one row to the wavelength table. Missing
folders, folders without coadd files and files the reader rejects are skipped.

Files and modules:

- `spectra.dfy` (`SpectraModel`): what the directory tree and the reader provide. An
  `Archive` maps each existing folder to its listing, and each readable file to its
  fibermap and its per-band flux rows and wavelength grids. Sample values have an
  opaque type `T`, because they are only ever copied.
- `selection.dfy` (`Selection`): the keep-mask and `numpy.where` over it.
- `bands.dfy` (`Bands`): the b, r, z concatenation, the split that inverts it, and the
  row-wise concatenation through `zip`.
- `write_dataset.dfy` (`WriteDataset`): the function `Dataset`, which specifies the
  whole run, and the method `CreateCsvDataset`, which builds the two row lists with
  loops and is proved equal to `Dataset`. The source's three nested loops are written as
  three methods: one over folders (`CreateCsvDataset`), one over the petal files of a
  folder (`AppendFolderRows`), and one over the kept targets of a file
  (`AppendFileRows`). Each method carries the accumulated rows along.
- `dataset_properties.dfy` (`DatasetProperties`): what the tables are guaranteed to hold.

A run either completes with its two row lists, or ends with an `IndexError`. The
error happens when a kept fibermap position is past the end of a band's flux rows.
The code catches exceptions only around the reader. An `IndexError` raised while the
flux rows are built therefore escapes the function, and no CSV file is written. The
code has no shape check: `zip` cuts the concatenated rows to the shortest band, and
indexing past that end raises.

## Model

| member | source | states |
|---|---|---|
| `Selection.TrueIndices` | scripts/write_dataset.py:51 | the positions returned are strictly increasing, each is a true entry of the mask, and every true entry is among them |
| `Selection.ValidIndices` | scripts/write_dataset.py:50-51 | a fibermap position is selected iff its COADD_FIBERSTATUS is 0 and its DESI_TARGET is non-zero; positions come in increasing order, each once, all within the fibermap |
| `Selection.ValidIndicesCount` | scripts/write_dataset.py:50-51 | there are exactly as many valid indices as eligible fibermap rows |
| `Bands.Concat3` | scripts/write_dataset.py:68 | the concatenated grid is as long as the three band grids together |
| `Bands.Split3` | scripts/write_dataset.py:68 | the inverse of line 68's concatenation, used only to state the round trip (the code never splits): cutting at the b and r lengths gives three parts of those lengths and the rest |
| `Bands.SplitConcat` | scripts/write_dataset.py:58-68 | splitting b ++ r ++ z at the lengths of b and r gives back b, r and z exactly |
| `Bands.ConcatSplit` | scripts/write_dataset.py:58-68 | concatenating the three split parts gives back the original array |
| `Bands.ZipConcat` | scripts/write_dataset.py:58 | zip stops at the shortest band: there are min(\|b\|, \|r\|, \|z\|) concatenated rows, and row i is b[i] ++ r[i] ++ z[i] |
| `WriteDataset.CoaddFiles` | scripts/write_dataset.py:36 | a name is a petal file iff it is in the listing and starts with `coadd-`; no more names than the listing |
| `WriteDataset.CoaddFilesAppend` | scripts/write_dataset.py:36 | the filter keeps listing order and multiplicity: the petal files of a ++ b are those of a followed by those of b |
| `WriteDataset.CoaddFilesSingle` | scripts/write_dataset.py:36 | a one-name listing keeps its name exactly when it starts with `coadd-` |
| `WriteDataset.Zip` | scripts/write_dataset.py:30 | the folders are the pairs (tiles[i], nights[i]), up to the shorter of the two lists |
| `WriteDataset.PetalsAppend` | scripts/write_dataset.py:42-72 | the petal files contribute in iteration order: processing a ++ b is processing a, then b, and the first error ends everything |
| `WriteDataset.FoldersAppend` | scripts/write_dataset.py:30-72 | the folders contribute in iteration order: processing a ++ b is processing a, then b |
| `WriteDataset.PetalsAbortPersists` | scripts/write_dataset.py:59-65 | an IndexError in one petal file is the outcome of the whole folder |
| `WriteDataset.FoldersAbortPersists` | scripts/write_dataset.py:59-65 | an IndexError in one folder is the outcome of the whole run |
| `WriteDataset.FolderSkipped` | scripts/write_dataset.py:33-40 | a folder that is not a directory, or holds no coadd file, leaves the rows as they were |
| `WriteDataset.PetalSkipped` | scripts/write_dataset.py:44-48 | a petal file the reader raises on leaves the rows as they were |
| `WriteDataset.CreateCsvDataset` | scripts/write_dataset.py:27-78 | the loops over folders, petal files and valid indices produce exactly the run `Dataset` specifies: its two row lists, or its IndexError |
| `WriteDataset.AppendFolderRows` | scripts/write_dataset.py:42-72 | the loop over one folder's petal files extends the accumulated rows exactly as that folder's files specify |
| `WriteDataset.AppendFileRows` | scripts/write_dataset.py:49-72 | the loop over one file's valid indices extends the accumulated rows exactly as that file specifies, or meets its IndexError |
| `DatasetProperties.FileRows` | scripts/write_dataset.py:50-72 | a file adds one flux row per eligible target, in fibermap order. Each flux row copies the same position of every band, and FLUX_BRZ = FLUX_B ++ FLUX_R ++ FLUX_Z. TARGETID and PETAL_LOC come from the fibermap, or are None when it has none. TILEID is the loop's tile exactly when the fibermap has none. The file adds no wavelength row when nothing is kept, otherwise exactly one, with the loop's tile and night, the petal file name, and WAVE_BRZ = WAVE_B ++ WAVE_R ++ WAVE_Z |
| `DatasetProperties.FileAbortsIffTruncated` | scripts/write_dataset.py:58-65 | a file ends the run iff it has a valid index and its last valid index is at or past the number of zipped rows |
| `DatasetProperties.FileAligned` | scripts/write_dataset.py:58-72 | when every band row matches its band's grid, every flux row's FLUX_BRZ is as long as the file's WAVE_BRZ |
| `DatasetProperties.DatasetBandsConcatenated` | scripts/write_dataset.py:58-72 | in a completed run every flux row is FLUX_B ++ FLUX_R ++ FLUX_Z and every wavelength row is WAVE_B ++ WAVE_R ++ WAVE_Z |
| `DatasetProperties.DatasetWaveRowsFrom` | scripts/write_dataset.py:30-72 | every wavelength row comes from one of the zipped folders, and from a coadd-prefixed file of it that the reader read and that kept a target. It carries that file's grids |
| `DatasetProperties.DatasetAbortFrom` | scripts/write_dataset.py:30-65 | a run that ends in an IndexError names a zipped folder, and a coadd file in it that the reader read, whose last valid index is past the shortest band |
| `DatasetProperties.DatasetFluxRowsFrom` | scripts/write_dataset.py:30-68 | every flux row of a completed run describes a kept target of a coadd-prefixed file, of one of the zipped folders, that the reader read: it copies that target's bands, FLUX_BRZ and fibermap cells |
| `DatasetProperties.DatasetRowsComplete` | scripts/write_dataset.py:30-72 | in a completed run, every coadd file of a zipped folder that the reader reads completed: each of its kept targets has its flux row in the flux table, and its wavelength row is in the wavelength table when it kept any target |
| `DatasetProperties.DatasetAbortsOnTruncatedFile` | scripts/write_dataset.py:30-65 | a coadd file of a zipped folder that the reader reads and whose last valid index is past its shortest band makes the run end in an IndexError |
| `DatasetProperties.DatasetAbortFirst` | scripts/write_dataset.py:30-65 | a run ending in an IndexError ends at the first raising file in iteration order: every earlier folder and every earlier coadd file of its folder completed, and the error names that file, which the reader read and which raises on its own |
| `DatasetProperties.SkippedFolderAddsNothing` | scripts/write_dataset.py:33-40 | a missing folder, or one without coadd files, adds nothing and the run continues: the outcome equals the run without that folder |
| `DatasetProperties.SkippedPetalAddsNothing` | scripts/write_dataset.py:44-53 | a file the reader raises on, or one with no valid target, adds nothing and the run continues: the outcome equals the run without that file |
| `DatasetProperties.OnlyCoaddFilesRead` | scripts/write_dataset.py:36-45 | files not starting with `coadd-` are never read: two trees with the same listings whose coadd files read alike give the same run |
| `DatasetProperties.OneSurvivor` | scripts/write_dataset.py:50-51 | with fibre status [0, 0, 1] and target bits [2, 0, 4], only position 0 is kept |

## Left out

- Filesystem access (`check_path`, `get_path`, `os.path.isdir`, `os.listdir`; scripts/write_dataset.py:16-24, 33, 36): each folder's listing is an input in listing order. `get_path` takes the first night of each tile; the model receives the tiles and nights as given.
- The reader `desispec.io.read_spectra` and `fibermap.to_pandas()`: replaced by the `readable` map. A path absent from it stands for any exception the reader raises.
- Missing `COADD_FIBERSTATUS` or `DESI_TARGET` columns, or a missing `b`, `r` or `z` band: in the code these raise a KeyError outside the `try`. The model's data types always hold them, so it does not capture that failure.
- Optional fibermap columns: pandas decides per table whether TARGETID, TILEID and PETAL_LOC exist. The model lets each row have or lack them, which covers the per-table case. A present cell holding NaN is returned as it is by `.get`; the model has no NaN.
- `WriteDataset.IndexError`: records only the folder and the petal file, not the offending position or Python's message.
- DataFrame construction, `to_csv`, and every `print` (scripts/write_dataset.py:34, 39, 47, 74-77): output and logging. In the model a completed run stands for both tables being written, and an `IndexError` for neither.
- `main` and the argument parsing (scripts/write_dataset.py:81-90): command-line plumbing.
- Flux and wavelength values: opaque, never computed on, so there is no floating point.
- Idempotence of two runs: `Dataset` is a function of its inputs, so nothing further is stated.
