# Face registry and matching of `SimpleFaceRecognizer`

This project models the matching engine of a small Flask face-recognition app. The engine's state is
`known_faces`, a dictionary from a person's name to a face record. A record holds:

- the averaged feature vector;
- the individual vectors of the three registration photos;
- a registration time stamp;
- the number of images.

The model covers these operations on that table:

- `register_face`: the checks in the source's order, then the all-or-nothing insertion.
- `check_face_similarity`: the duplicate search. The first entry in table order that scores strictly
  above the threshold is the one returned.
- `recognize_face`: the loop over detected faces and over identities. It keeps `best_similarity` and
  `best_match`. The effective-score rule uses three thresholds: 0.8, 0.6 and 0.75.
- The delete request.
- The name and image-count checks of the `register_multiple` request.

Face detection, feature extraction and the similarity score are OpenCV and numpy computations. The model
takes them as function parameters:

- a detector `Image -> seq<Box>`;
- an extractor `(Image, Box) -> FeatureVector`;
- a real-valued score of two vectors.

A feature vector is a sequence of 100 x 100 values, one per pixel of the resized grayscale crop, as the
code's resize-and-flatten gives. The model takes these values, and the scores, as exact reals. The
table is a sequence of entries in dictionary insertion order, with distinct names. Insertion order decides
which name the duplicate search returns and which identity recognition keeps.

Modules and files:

- `wrappers.dfy`: `Option`, `Result`, and Python truthiness of an optional string.
- `features.dfy`: images, boxes, feature vectors and the element-wise mean.
- `table.dfy`: records, entries, name lookup and deletion.
- `similarity.dfy`: `compare_faces`, `check_face_similarity` and the effective score.
- `enrollment.dfy`: the `register_face` decision.
- `recognition.dfy`: the best-match loop and the reported result.
- `requests.dfy`: `str.strip()` and the request checks.
- `recognizer.dfy`: the class `SimpleFaceRecognizer`, whose methods change the table in place.

The code does not do the following, and neither does the model:

- Names are compared exactly, with no case normalisation.
- There is no ambiguous-match rejection.
- An identity's score is its primary score, and the maximum over its individual vectors is consulted only
  when the record has `all_features` and the primary score is below 0.8.
- The data file is rewritten with no atomic replacement.
- There is no attendance tracking.

Python truthiness is modelled as written: `if duplicate_name:` and `best_match or 'Unknown'` treat an
empty name like `None`. A duplicate registered under the empty name is therefore not refused.
`DuplicatePersonRejected` holds when every registered name is non-empty. Request validation guarantees
that for names added through the request. `Register` keeps it.

## Model

| member | source | states |
|---|---|---|
| `Features.Mean` | app.py:137-144 | each coordinate of the averaged vector, times the number of vectors, is that coordinate's sum over the vectors |
| `Features.MeanOfThree` | app.py:138 | the averaged features of three photos are, coordinate by coordinate, a third of their sum |
| `Features.MeanOfCopies` | app.py:138 | averaging copies of one vector gives that vector back |
| `FaceTable.Remove` | app.py:438-439 | deleting a name leaves exactly the entries with other names; names other than the deleted one are kept; distinct names stay distinct; deleting an absent name changes nothing |
| `FaceTable.RemoveAt` | app.py:438-439 | with distinct names, deleting the name at position k gives the entries before and after k, in order |
| `FaceTable.AddThenRemove` | app.py:154 | registering a new name and then deleting it restores the table exactly |
| `FaceTable.AddKeepsDistinct` | app.py:111-154 | appending a record under a name not yet present keeps names distinct and adds exactly that name |
| `Similarity.CompareFaces` | app.py:70-82 | the comparison carries the score, and it is a match iff the score is strictly above the threshold |
| `Similarity.Qualifies` | app.py:88-100 | the per-entry test of the duplicate search: without individual vectors, the primary score is above the threshold; with them, the best of the primary and individual scores is above it |
| `Similarity.FindSimilar` | app.py:84-102 | returns None iff no entry's primary or individual vector scores above the threshold; otherwise returns the name of the first such entry in table order |
| `Similarity.MaxScore` | app.py:188-192 | the running maximum over the individual vectors is at least the start value and every score, and equals the start value or one of the scores |
| `Similarity.Effective` | app.py:183-195 | with no individual vectors or a primary score of at least 0.8, the score is the primary one, matching above 0.6; otherwise it is the maximum of the primary and individual scores, matching above 0.75 |
| `Similarity.EffectiveMatchAboveIndividual` | app.py:183-195 | for a record with individual vectors, it matches exactly when its effective score is above 0.75 |
| `Enrollment.ShotCheck` | app.py:118-133 | one image passes iff it has exactly one face and no registered non-empty name is found similar above 0.85; otherwise the reason is no face (1-based image number), several faces (1-based image number), or the non-empty name that the duplicate search returns, that is the first entry in table order scoring above 0.85 |
| `Enrollment.FirstFailure` | app.py:117-135 | no failure iff every image passes; otherwise the failure is the reason of the first image that fails |
| `Enrollment.Enroll` | app.py:105-159 | other than 3 images fails with a count error; a taken name fails with its name; success iff every image passes; a success holds the three extracted vectors in image order, their element-wise mean, the time stamp and image count 3; a failure names the first failing image's reason |
| `Enrollment.FirstFailingImageDecides` | app.py:117-135 | when images before i pass and image i fails, registration fails with image i's reason |
| `Enrollment.DuplicatePersonRejected` | app.py:130-133 | if one image's single face scores above 0.85 against any entry, registration fails; this needs every registered name to be non-empty |
| `Enrollment.BadFaceCountRejected` | app.py:120-124 | an image with no face or with several faces makes registration fail |
| `Enrollment.RejectionReasonNamesImage` | app.py:120-133 | an image-level failure reports a 1-based image number with zero or several faces, or the non-empty, registered name that the duplicate search returns for one image's single face |
| `Recognition.Step` | app.py:197-200 | one loop round: the best similarity becomes the larger of the old best and the identity's score; `best_match` becomes this identity's name when it matches and beats the old best, and is otherwise unchanged |
| `Recognition.Scan` | app.py:181-200 | the loop over the table: the best similarity is never negative, and a match is only held together with a similarity above 0.6 |
| `Recognition.Report` | app.py:208-212 | the result carries the face's box and the best similarity; its name is never empty; a held non-empty match is reported under its own name; it is 'Unknown' when there is no match, and any other name is the held match |
| `Recognition.ScanIsMaximum` | app.py:177-200 | `best_similarity` ends at least 0 and at least every effective score, and equal to 0 or one of them |
| `Recognition.ScanMonotone` | app.py:197-198 | `best_similarity` after any prefix of the table is at most its final value |
| `Recognition.ScanNoneIffNoWinner` | app.py:197-200 | `best_match` stays None iff no identity both matches and beats the best score seen before it |
| `Recognition.ScanLastWinner` | app.py:197-200 | when identity k matches and beats the best score before it, and no later identity does, `best_match` is k's name |
| `Recognition.ScanPicksFirstBest` | app.py:181-200 | on records that all hold individual vectors, a match is reported iff the best score is above 0.75, and it is the first identity reaching the best score |
| `Recognition.ScanMatchIsRegistered` | app.py:181-200 | a reported match is always a name in the table |
| `Recognition.DeletedNameNotRecognized` | app.py:181-200 | after a name is deleted, no face is matched to that name |
| `Recognition.NoMatchIsUnknown` | app.py:209 | when no identity matches, the face is reported as 'Unknown' |
| `Recognition.ReportsLastWinner` | app.py:197-209 | the face is reported under the non-empty name of the last identity that matched and beat the best score before it |
| `Requests.Strip` | app.py:387 | the result is a slice of the input with only white space outside it; it neither starts nor ends with white space; it is empty iff the input is all white space |
| `Requests.StripIdempotent` | app.py:387 | stripping twice equals stripping once |
| `Requests.ValidateRequest` | app.py:386-394 | an absent or blank name is refused first, then an image count other than 3; it succeeds iff neither refusal applies, with the stripped, non-empty name |
| `Recognizer.SimpleFaceRecognizer.constructor` | app.py:26-29 | the recognizer starts with the table read from the data file, whose names are distinct |
| `Recognizer.SimpleFaceRecognizer.Register` | app.py:105-163 | does what `Enroll` decides: on success it appends the record under the name and saves; on failure the table and the saved file are unchanged; distinct and non-empty names are kept |
| `Recognizer.SimpleFaceRecognizer.Recognize` | app.py:165-214 | no results and "No face detected" iff no face is detected; otherwise one result per face in detection order, each with that face's box, name and best similarity from the loop over the table |
| `Recognizer.SimpleFaceRecognizer.Delete` | app.py:438-444 | a present name is removed exactly and the table saved; an absent name reports "Face not found" and changes nothing |

## Left out

- OpenCV and numpy: the Haar cascade detection, crop/resize/grayscale extraction and cosine similarity are
  function parameters with no properties assumed. NaN scores from an all-zero crop are not modelled.
- Base64 and image decoding, and the per-photo decode and face-count loop of the request handlers. These are
  foreign library calls.
- Flask routes, JSON request/response shapes, templates and the server start-up. These are HTTP glue.
- Loading and saving the JSON data file. Loading is the constructor's argument. Saving is the ghost field
  `saved`, set to the table on every successful change.
- `datetime.now().isoformat()`: the time stamp is the parameter `now`.
- Feature values and scores are exact reals: the 0..255 integer pixels of the extracted vectors and the
  float64 rounding of `np.mean` are not modelled. No decision depends on them, because the score is a parameter.
- The message strings: errors are datatypes carrying the same image number or name.
- `Recognizer.SimpleFaceRecognizer.Recognize`: the confidence is the unrounded best similarity. The
  `round(x * 100, 2)` percentage is float formatting.
- Records missing the `features` key, and other malformed data-file contents, which raise in Python.
- The shared global recognizer and concurrent requests: there is no locking, and concurrency is out of
  scope.
- The live-preview duplicate check of the `/detect_faces` route (threshold 0.80). It is a route, not part of
  the engine's table logic.
