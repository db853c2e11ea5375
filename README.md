# DynamoDB-stream job launcher, modelled in Dafny

This project models `handler` in `lambda_script_runner/index.ts`. The handler is an AWS Lambda
function that runs on a DynamoDB stream. For each new job record it starts one EC2 instance,
which runs the job's script. It works in five steps:

1. It asks EC2 once (`DescribeImages`) for the Canonical Ubuntu 22.04 images, which come back as
   a list, and picks the newest dated one itself.
2. It walks the batch's records.
3. For every `INSERT` it reads the job's `id`, `text_input` and `input_file_path`. It strips the
   upload marker `.Input` from the path.
4. It renders a bash user-data script from a template.
5. It base64-encodes the script's UTF-8 bytes and sends a `RunInstances` request for it.

A failed launch is logged and skipped. Any other error ends the batch in the outer `catch`.

The model is organised as follows:

- `wrappers.dfy` (`Wrappers`): `Option` and `Result`.
- `bytes.dfy` (`Bytes`): the octet type that both encoders share.
- `base64.dfy` (`Base64`): the encoding of section 4 of RFC 4648, with a strict decoder. The two
  are proved inverse in both directions.
- `utf8.dfy` (`Utf8`): UTF-8, the byte form that `Buffer.from(string)` produces, with a strict
  decoder. The two are proved inverse in both directions.
- `image_selection.dfy` (`ImageSelection`): the `filter(...).sort(...)[0]` chain that chooses the
  image. The sort is a stable insertion sort, newest first.
- `input_marker.dfy` (`InputMarker`): `replace('.Input', '')`, which removes the first occurrence.
- `user_data.dfy` (`UserData`): the template literal, character for character. Every non-empty
  line after `#!/bin/bash` keeps the template's eight spaces of indentation; lines 56, 58 and 65
  are empty, and line 62 is eight spaces only.
- `launch_request.dfy` (`LaunchRequest`): the `RunInstances` parameters. The configuration
  (`KEY_NAME`, `SECURITY_GROUP_ID`, `INSTANCE_PROFILE_NAME`, `SUBNET_ID`, `SCRIPT_BUCKET_NAME`,
  `TABLE_NAME`) is a `Config` value.
- `stream_handler.dfy` (`StreamHandler`): the records loop and the handler.
  - Both the functional specification (`RunRecords`, `Handle`) and the imperative methods
    (`ProcessRecord`, `ProcessRecords`, `HandleBatch`) are given.
  - The two SDK calls are inputs: what `DescribeImages` returned, and `accepted(n)`, whether the
    n-th `RunInstances` attempt succeeded.
  - What the handler does is described by a `Trace`: the SDK calls in order, and why the handler
    stopped early, if it did.
  - `Handle` and the records loop take the job-to-request translation as a function value. The
    deployed handler, `HandleBatch`, uses `Launchers(config)`, which builds each request with
    `JobRequest` (`StreamHandler.DeployedLaunch`). The handler's lemmas therefore hold for every
    translation, and their proofs do not depend on the script text.

Two behaviours of the code are worth stating up front:

- The code does no escaping: line 68 puts the text and the path between single quotes, and the id
  and table name bare, all as they are
  (`UserData.TextBreaksOut`).
- A new image that lacks a job field throws outside the inner `try`, which ends the rest of the
  batch (`StreamHandler.BatchStopsAtMalformed`).

## Model

| member | source | states |
|---|---|---|
| Base64.CharOf | lambda_script_runner/index.ts:75 | the character of a sextet (RFC 4648 Table 1) is never the pad `=`; `Base64.ValueOfCharOf` shows it lies in the alphabet |
| Base64.ValueOf | lambda_script_runner/index.ts:75 | a character the decoder accepts is the alphabet character of the value returned |
| Base64.ValueOfCharOf | lambda_script_runner/index.ts:75 | decoding an alphabet character gives back its sextet |
| Base64.Encode | lambda_script_runner/index.ts:75 | the output has 4·⌈n/3⌉ characters; all are alphabet characters, except for pads in the last two places |
| Base64.DecodeGroup | lambda_script_runner/index.ts:75 | a decoded group is 1-3 bytes, and it is shorter than 3 only in the last group |
| Base64.BlockRoundTrip | lambda_script_runner/index.ts:75 | a full 3-byte block decodes back to its bytes |
| Base64.Final1RoundTrip | lambda_script_runner/index.ts:75 | a final single byte (`xx==`) decodes back |
| Base64.Final2RoundTrip | lambda_script_runner/index.ts:75 | a final two bytes (`xxx=`) decode back |
| Base64.DecodeEncode | lambda_script_runner/index.ts:75 | decoding the encoding of any byte string gives back that byte string |
| Base64.GroupCanonical | lambda_script_runner/index.ts:75 | a group the decoder accepts is exactly the encoding of the bytes it gives |
| Base64.EncodeDecode | lambda_script_runner/index.ts:75 | every string the decoder accepts is the encoding of the result |
| Base64.DecodeIff | lambda_script_runner/index.ts:75 | `Decode(s) == Some(b)` if and only if `Encode(b) == s` |
| Utf8.EncodeChar | lambda_script_runner/index.ts:75 | a character takes 1-4 bytes; it takes one byte exactly when it is ASCII; every byte after the first is a continuation byte |
| Utf8.Encode | lambda_script_runner/index.ts:75 | a string of n characters takes between n and 4n bytes |
| Utf8.DecodeChar | lambda_script_runner/index.ts:75 | an accepted sequence uses between 1 byte and the whole input |
| Utf8.DecodeEncodeChar | lambda_script_runner/index.ts:75 | a character's encoding, followed by anything, decodes to that character and its length |
| Utf8.DecodeEncode | lambda_script_runner/index.ts:75 | decoding the UTF-8 form of any string gives that string back |
| Utf8.EncodeAscii | lambda_script_runner/index.ts:75 | an ASCII string takes one byte per character, each equal to its code |
| Utf8.EncodeDecodeChar | lambda_script_runner/index.ts:75 | an accepted sequence is exactly the encoding of the character decoded |
| Utf8.EncodeDecode | lambda_script_runner/index.ts:75 | every accepted byte string is the UTF-8 form of the decoded string |
| ImageSelection.Dated | lambda_script_runner/index.ts:26 | keeps only dated images, all taken from the input; empty exactly when no image is dated; `DatedKeepsEveryDate`, `DatedConcat` and `DatedSingle` pin it down as the in-order filter |
| ImageSelection.DatedKeepsEveryDate | lambda_script_runner/index.ts:26 | no dated image is dropped: for every timestamp, the filtered list holds exactly the catalogue's images of that timestamp, in catalogue order |
| ImageSelection.DatedConcat | lambda_script_runner/index.ts:26 | the filter of a concatenation is the concatenation of the filters, so catalogue order is kept across timestamps too |
| ImageSelection.DatedSingle | lambda_script_runner/index.ts:26 | a single image is kept exactly when it is dated |
| ImageSelection.Insert | lambda_script_runner/index.ts:27 | inserting adds exactly that image and keeps every image dated |
| ImageSelection.InsertHead | lambda_script_runner/index.ts:27 | the inserted image goes in front of the list's head when it is at least as new |
| ImageSelection.InsertNewestFirst | lambda_script_runner/index.ts:27 | inserting into a newest-first list keeps it newest-first |
| ImageSelection.SortNewestFirst | lambda_script_runner/index.ts:27 | the result is newest-first and a permutation of the input |
| ImageSelection.SortStable | lambda_script_runner/index.ts:27 | the sort keeps the input order among images with the same date, as the stable `Array.prototype.sort` does |
| ImageSelection.SortedKeepsDated | lambda_script_runner/index.ts:25-27 | the filter and the sort together keep every dated image, with the catalogue order among images of one timestamp |
| ImageSelection.InsertStable | lambda_script_runner/index.ts:27 | an insertion puts the image in front of the images with its date, and leaves their order alone |
| ImageSelection.SelectImage | lambda_script_runner/index.ts:21-33 | "no AMIs found" exactly when `Images` is missing or empty; the "after filtering" error exactly when it is non-empty but has no dated image |
| ImageSelection.FirstNewestCons | lambda_script_runner/index.ts:25-33 | how the first newest dated image of `x :: s` relates to the first newest of `s` |
| ImageSelection.SortedHead | lambda_script_runner/index.ts:25-33 | the head of the sorted dated images is the first, in list order, of the newest dated images |
| ImageSelection.SelectsFirstNewest | lambda_script_runner/index.ts:25-33 | when some image is dated, the chosen `ImageId` belongs to a dated image that is at least as new as every dated image and strictly newer than every dated image listed before it |
| InputMarker.StripInputMarker | lambda_script_runner/index.ts:47 | `replace('.Input', '')`: the result is as long as the input or six characters shorter; `StripSpec` gives its whole behaviour |
| InputMarker.OccursAtShift | lambda_script_runner/index.ts:47 | an occurrence at i+1 in s is an occurrence at i in the tail of s |
| InputMarker.StripAbsent | lambda_script_runner/index.ts:47 | a path without `.Input` is unchanged |
| InputMarker.StripFirst | lambda_script_runner/index.ts:47 | with the first occurrence at i, exactly the six characters at i are cut out, so the result is six shorter |
| InputMarker.FirstOccurrenceAtMost | lambda_script_runner/index.ts:47 | a string with an occurrence at k has a first occurrence at or before k |
| InputMarker.StripSpec | lambda_script_runner/index.ts:47 | both cases: unchanged without an occurrence, otherwise the first occurrence removed |
| InputMarker.NotIdempotent | lambda_script_runner/index.ts:47 | `a.Input.Input` becomes `a.Input`, and a second strip gives `a` |
| InputMarker.AppendedMarkerIsFirst | front-end/src/components/FovusForm.tsx:40 | a `.Input` appended to a name without one is the first occurrence |
| InputMarker.UploadPathRoundTrip | front-end/src/components/FovusForm.tsx:40-54 | the uploaded `${bucket}/${name}.Input` strips back to `${bucket}/${name}` when the latter contains no `.Input` |
| UserData.RenderUserData | lambda_script_runner/index.ts:52-68 | the template with its five values interpolated; specified by `StartsWithShebang`, `CopiesJobScript`, `EndsWithInvocation`, `InvocationIsLastLine` and `AbsentFieldsRenderUndefined` |
| UserData.InvocationLine | lambda_script_runner/index.ts:68 | the invocation line; specified by `NoNewlineInLine`, `TextQuoted` and `TextBreaksOut` |
| UserData.Interpolate | lambda_script_runner/index.ts:68 | `${v}` renders as `undefined` exactly when the value is absent or is itself the string `undefined`, so the script cannot tell the two apart |
| UserData.StartsWithShebang | lambda_script_runner/index.ts:52 | the script's first line is `#!/bin/bash` |
| UserData.CopiesJobScript | lambda_script_runner/index.ts:66 | a line of its own, indented by eight spaces, runs `aws s3 cp s3://<SCRIPT_BUCKET_NAME>/ec2_script.sh /home/ubuntu/ec2_script.sh` |
| UserData.EndsWithInvocation | lambda_script_runner/index.ts:67-68 | the script ends with a newline, the indent and `/home/ubuntu/ec2_script.sh <id> '<text>' '<path>' <table>` |
| UserData.InvocationIsLastLine | lambda_script_runner/index.ts:68 | when no value holds a newline, the invocation is the script's last line |
| UserData.NoNewlineInLine | lambda_script_runner/index.ts:68 | the invocation line has no newline when none of its values has one |
| UserData.TextQuoted | lambda_script_runner/index.ts:68 | when id and text contain no `'`, the text is exactly what stands between the line's first two quotes |
| UserData.TextBreaksOut | lambda_script_runner/index.ts:68 | when the text contains a `'`, the first quoted argument ends at that quote, because nothing is escaped |
| UserData.AbsentFieldsRenderUndefined | lambda_script_runner/index.ts:43-68 | with no new image, the line reads `undefined 'undefined' 'undefined'` |
| LaunchRequest.BuildLaunchRequest | lambda_script_runner/index.ts:70-82 | the `RunInstances` parameters of one job; specified by `LaunchRequestSpec` |
| LaunchRequest.EncodeUserData | lambda_script_runner/index.ts:75 | `Buffer.from(script).toString('base64')`; specified by `UserDataRoundTrip` and `UserDataIff`, its length by `Base64.Encode` and `AsciiUserDataLength` |
| LaunchRequest.LaunchRequestSpec | lambda_script_runner/index.ts:70-82 | the request uses the chosen image, t3.small, counts 1 and 1, and the configured key, single security group, profile and subnet; its user data decodes back to the script |
| LaunchRequest.UserDataRoundTrip | lambda_script_runner/index.ts:75 | the base-64 user data of any script decodes back to that script |
| LaunchRequest.AsciiUserDataLength | lambda_script_runner/index.ts:75 | an ASCII script of n characters gives 4·⌈n/3⌉ characters of user data |
| LaunchRequest.UserDataIff | lambda_script_runner/index.ts:75 | user data decodes to a script if and only if it is that script's encoding |
| StreamHandler.StripPath | lambda_script_runner/index.ts:47 | `s3Path?.replace(...)`: an absent path stays absent, a present one is stripped as `InputMarker.StripSpec` says |
| StreamHandler.JobScript | lambda_script_runner/index.ts:43-68 | the user-data script of a job, rendered from its fields and the configuration; specified by the `UserData` lemmas |
| StreamHandler.JobRequest | lambda_script_runner/index.ts:70-82 | the request of a job for the chosen image; specified by `LaunchRequest.LaunchRequestSpec` |
| StreamHandler.StepRecord | lambda_script_runner/index.ts:42-91 | one loop iteration; specified by `RunRecordsInsert` (a well-formed INSERT), `StepMalformed` (a malformed INSERT) and `NonInsertIgnored` (any other record) |
| StreamHandler.StepMalformed | lambda_script_runner/index.ts:43-46 | a malformed INSERT stops the loop and adds no attempt |
| StreamHandler.RunRecords | lambda_script_runner/index.ts:41-92 | the records loop; specified by `RunRecordsWellFormed` against `InsertJobs`, `RunRecordsStops`, `StoppedStays` and `RunRecordsIgnoresResults` |
| StreamHandler.Handle | lambda_script_runner/index.ts:6-95 | the handler: the image lookup, with the filters and owner of lines 7-15 (`Query`), is always the first call; specified by `BatchLaunchesInserts`, `BatchStopsAtMalformed`, `LaunchFailuresIsolated`, `NonInsertIgnored` and `HandleBatch` |
| StreamHandler.ReadJob | lambda_script_runner/index.ts:43-46 | the three reads `newItem?.k.S` (each through `ReadString`): reading the job's fields succeeds exactly when there is no new image or the image has all three fields, and the fields are those of the image |
| StreamHandler.RunRecordsSnoc | lambda_script_runner/index.ts:41-92 | one more record takes one more loop step, unless the loop has stopped |
| StreamHandler.StoppedStays | lambda_script_runner/index.ts:41-93 | once a record has thrown, the later records change nothing |
| StreamHandler.ProcessRecord | lambda_script_runner/index.ts:42-91 | one loop step: non-INSERT records are skipped; a malformed INSERT stops the loop; any other INSERT appends one attempt with the next result |
| StreamHandler.ProcessRecords | lambda_script_runner/index.ts:41-92 | the loop produces exactly the loop specification's attempts and stop flag, and every call it adds is a `RunInstances` |
| StreamHandler.HandleBatch | lambda_script_runner/index.ts:17-95 | one image lookup comes first, then only launch attempts; a failed lookup, a missing or empty image list, a list with no dated image, or a missing `Records` each end the batch with no launch and their own reason |
| StreamHandler.InsertJobsSnoc | lambda_script_runner/index.ts:42-46 | the reference list of INSERT jobs grows by one job exactly when the new record is an INSERT |
| StreamHandler.RunRecordsWellFormed | lambda_script_runner/index.ts:41-92 | with no malformed INSERT, the loop runs to the end; it makes one attempt per INSERT record, in order, and the n-th attempt carries result n |
| StreamHandler.RunRecordsStops | lambda_script_runner/index.ts:43-46 | a malformed INSERT at position m stops the loop, keeping the attempts made before m |
| StreamHandler.RunRecordsIgnoresResults | lambda_script_runner/index.ts:84-90 | whether attempts succeed changes neither the requests made nor where the loop stops |
| StreamHandler.RunRecordsInsert | lambda_script_runner/index.ts:42-86 | a well-formed INSERT added to a running batch adds exactly one attempt, for its own job |
| StreamHandler.BatchLaunchesInserts | lambda_script_runner/index.ts:25-92 | with a dated image and well-formed records, the handler completes; after the lookup, the n-th call is the launch of the n-th INSERT's job with the image `SelectImage` chose (the first newest, by `ImageSelection.SelectsFirstNewest`), the same image for every attempt |
| StreamHandler.DeployedLaunch | lambda_script_runner/index.ts:70-82 | the deployed handler builds each job's request with `JobRequest` for the chosen image |
| StreamHandler.BatchStopsAtMalformed | lambda_script_runner/index.ts:43-95 | a malformed INSERT at m ends the batch with `MalformedNewImage`; the calls are exactly those made for the records before m |
| StreamHandler.LaunchFailuresIsolated | lambda_script_runner/index.ts:84-90 | the launch results change neither the requests nor the outcome; attempt n's recorded result is `accepted(n)` |
| StreamHandler.NonInsertIgnored | lambda_script_runner/index.ts:42 | a record other than INSERT (MODIFY, REMOVE) at the end of a batch changes nothing |

## Left out

- The AWS SDK (`ec2Client.send`, lines 19 and 86), `async`/`await` and the Lambda runtime are not
  modelled. The image list and the per-attempt results are inputs. Any number of concurrent
  invocations is outside the model; the handler keeps no state between them.
- `console.log` and `console.error` are left out.
- `CreationDate` is an integer timestamp. The parsing done by `new Date(...).getTime()` is not
  modelled. Neither is the NaN comparator an unparsable date produces.
- An `Event` whose `Records` is not an array is treated as a missing `Records`. Both take the same
  exit (line 37).
- A `Records` entry that is `null` or not an object is not modelled. `NewImage` attributes are
  read only through their `S` member.
- The environment values are plain strings. The deployment stack always sets them
  (`lib/fovus_challenge-stack.ts:237-244`), so an unset variable is not modelled.
- JavaScript strings are UTF-16. A lone surrogate, which `Buffer.from` would replace with U+FFFD,
  cannot occur in a Dafny `string` of Unicode scalar values.
- The bash meaning of the rendered script is not modelled. The model stops at the quoting
  observation in `UserData.TextBreaksOut`.
- The model adds no escaping routine, since the code has none.
- The `RunInstances` response is reduced to success or failure.
- `PresignedURL_lambda/index.ts` and `lib/fovus_challenge-stack.ts` are not part of this model.
  From `front-end/src/components/FovusForm.tsx`, only the upload-naming rule (lines 40 and 54) is
  used, as the hypothesis of `InputMarker.UploadPathRoundTrip`.
- StreamHandler.RunRecordsInsert: states the one-more-INSERT step for any job-to-request function.
  It is not restated for the whole handler. `StreamHandler.BatchLaunchesInserts` gives the
  handler-level form of the per-INSERT launches.
