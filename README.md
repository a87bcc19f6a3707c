# Best-observation selection for the exoplanet transit pipeline

The pipeline searches a catalog for target-pixel observations of one star,
keeps the observation with the longest exposure time, downloads it, and runs a
light-curve analysis on it. The only logic the repository writes itself is
that choice, `retrieveBestData` in `main.py`. Everything after it is a chain of
calls into astronomy, numerics and plotting libraries.

This project models that selector in one Dafny module, `BestObservation`
(`selector.dfy`):

- `Observation` is a catalog entry: mission, target name and exposure time.
  Only the exposure time takes part in the choice.
- `SelectBest` is the scan itself. It is a `while` loop over the search result.
  It seeds the best entry with element 0 and then walks every element,
  element 0 included. It replaces the best entry only when an element's
  exposure time is strictly longer. An empty search result gives `NotFound`.
- `BestIndex` is the same choice written as a left-to-right reduction.
  `IsFirstMax` is an independent description of the answer: an index whose
  exposure time is the longest, with every earlier exposure time strictly
  shorter. `MaxExptime` is the longest exposure time itself.
- `Conclude` and `RetrieveBestData` model what the function does with the
  choice. A found observation becomes `Download(observation)`. An empty search
  result becomes `Abort(1, message)`, where the message names the target star.
  The source prints that message and ends the process with status 1.

The search result is a Dafny `seq`, which is an immutable value. So the
selection cannot modify its input, and no clause needs to say so.

## Model

| member | source | states |
|---|---|---|
| `BestObservation.SelectBest` | main.py:12-20 | the result is NotFound exactly when the search result is empty; otherwise it is the element at the returned index, and that index is the first one holding the longest exposure time (the loop keeps `longest_exptime` equal to the best entry's exposure time, keeps that entry inside the prefix scanned so far once the scan has started, and keeps it no shorter than every entry of that prefix) |
| `BestObservation.MaxExptime` | main.py:16-20 | the longest exposure time bounds every entry and is carried by some entry |
| `BestObservation.BestIndex` | main.py:13-20 | the strict-`>` left-to-right reduction returns an index of the input; what that index means is stated by `BestIndexIsFirstMax` and `FirstMaxIsBestIndex` |
| `BestObservation.BestIndexIsFirstMax` | main.py:16-20 | the strict-`>` left-to-right reduction ends on an entry with the longest exposure time, and every earlier entry is strictly shorter (ties go to the first occurrence) |
| `BestObservation.FirstMaxUnique` | main.py:18 | at most one index is the first maximum, so the tie-break rule fixes the choice |
| `BestObservation.FirstMaxIsBestIndex` | main.py:16-20 | any index that is the first maximum is the index the reduction picks |
| `BestObservation.BestIndexHasMaxExptime` | main.py:16-20 | the chosen entry's exposure time equals the longest exposure time of the search result |
| `BestObservation.SingletonIsSelected` | main.py:13 | a one-element search result selects that element |
| `BestObservation.HeadMaxIsSelected` | main.py:13-18 | when element 0 has the longest exposure time, element 0 is chosen whatever follows |
| `BestObservation.TieGoesToFirst` | main.py:18 | exposure times 30, 1800, 1800, 60 select index 1, not index 2 |
| `BestObservation.MiddleLongestIsSelected` | main.py:16-20 | exposure times 60, 120, 90 select the second entry |
| `BestObservation.NotFoundMessage` | main.py:26 | the abort message ends with the target name |
| `BestObservation.Conclude` | main.py:24-27 | a found observation is downloaded, unchanged; no selection means abort with status 1 and the not-found message, with nothing downloaded |
| `BestObservation.RetrieveBestData` | main.py:11-27 | it aborts with status 1 and the not-found message exactly when the search result is empty; otherwise it downloads the first entry with the longest exposure time |

## Left out

- The catalog search (main.py:9) and the download (main.py:24) are network I/O through an external library. `Download(observation)` stands for the download call; the downloaded pixel file is not modelled.
- The `print` diagnostics (main.py:23, 26, 62-64) are output only. The not-found message is modelled as a value carried by `Abort`.
- Conclude: the not-found message reaches the user only when standard output is flushed line by line, as on a terminal. `os._exit(1)` (main.py:27) ends the process without flushing buffers, so with output redirected to a file or pipe the exit status is still 1 but the message is lost. The model always attaches the message.
- Process termination by `os._exit(1)` (main.py:27) is modelled as the `Abort` outcome with status 1.
- `RetrieveBestData` takes the target name as a parameter. In the source it is the module-level constant `target_star` (main.py:6).
- Light-curve conversion, NaN removal, flattening, the box-least-squares periodogram and folding (main.py:35-57) are floating-point numerics done entirely by external libraries. Their behaviour is not visible in this repository.
- All plotting and the blocking wait for the plot window (main.py:32, 36, 43, 54, 57-59, 66) are user interface.
- Exposure times are modelled as Dafny `real` numbers. Units of astropy quantities are not modelled. Floating-point NaN is not modelled either. In the source, a NaN exposure time at a later index never compares greater, so the scan skips it. A NaN at index 0 becomes the seed, no later comparison against it is true, and index 0 is returned whatever follows: exposure times NaN, 60, 1800 select index 0.
- The index returned alongside the chosen observation is not in the source. It is there so that the first-occurrence tie-break can be stated.
