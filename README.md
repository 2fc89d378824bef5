# Sentinel Watcher, modelled in Dafny

Sentinel Watcher is a one-shot monitoring script. It lists the EC2 instances
of region `us-east-1` with a single describe-instances call and walks the
reservations in the response, and each instance inside them, in order. It
counts every instance. It counts the instances whose state name is exactly
`"stopped"`. For each of those it prints a bold alert and calls the
`trigger_healing` placeholder. It then prints a summary and returns the
stopped count, and `main` ends with an all-clear line or a "needs attention"
line. If the call raises missing credentials, a client error (with a
separate message for `UnauthorizedOperation`) or any other exception, the
script prints an error and exits with status 1.

The model has two modules:

- `Instances` (`instances.dfy`) holds the response data: an `Instance` is an
  id with its raw state name, and a reservation is a `seq<Instance>`. It also
  holds the specification functions the scan is proved against. `Flatten`
  gives the discovery order. `CountStopped` gives the stopped count.
  `StoppedIds` gives the stopped ids in order, and `StoppedPositions` gives
  where they were picked.
- `Watcher` (`watcher.dfy`) models the script. The describe-instances call
  becomes an input value `Describe`: either the reservations it returned or
  the exception it raised. Console output becomes a log of `Line`s.
  `sys.exit(1)` becomes `ScanOutcome.Fail(1)`. `check_ec2_instances` is the
  method `CheckEc2Instances`. Its `try` body, the nested loops with the two
  counters and the appended alert/healing log, is the method
  `ScanReservations`, and its `except` handlers are the other branch.
  `main` together with the process exit status is the method `Watch`.

The script compares the raw state string with `"stopped"`. An unknown
state name is neither an error nor counted. The script makes one
describe-instances call, with no pagination. It has no mock mode, no
remediation advisor and no lifecycle-state enumeration; healing is a
placeholder that only prints. A completed scan exits with status 0 even
when stopped instances were found.

## Model

| member | source | states |
|---|---|---|
| `Instances.IsStopped` | sentinel_watcher.py:64 | an instance is stopped only if its state name is exactly "stopped"; pending, running, stopping, shutting-down and terminated never match |
| `Instances.CountStopped` | sentinel_watcher.py:61-65 | the stopped count never exceeds the number of instances scanned |
| `Instances.StoppedIds` | sentinel_watcher.py:63-67 | exactly one id is recorded per counted stopped instance |
| `Instances.FlattenLength` | sentinel_watcher.py:57-59 | the instance total equals the sum of the reservation sizes |
| `Instances.FlattenMember` | sentinel_watcher.py:57-58 | the scan visits an instance exactly when some reservation holds it |
| `Instances.CountStoppedZeroIff` | sentinel_watcher.py:61-65 | the stopped count is 0 exactly when no instance's state is exactly "stopped" |
| `Instances.CountStoppedAll` | sentinel_watcher.py:59-65 | the stopped count equals the total exactly when every instance is stopped |
| `Instances.StoppedIdsExact` | sentinel_watcher.py:57-67 | the healed ids are picked at strictly increasing positions that hold stopped instances, and every stopped position is picked: once per stopped instance, never for another, in reservation-then-instance order |
| `Instances.ThreeInstanceScenario` | sentinel_watcher.py:57-67 | running i-1 with stopped i-2 and i-3 gives 3 instances, 2 stopped, ids i-2 then i-3 |
| `Watcher.ScanLines` | sentinel_watcher.py:64-67 | two lines per stopped instance; `ScanLinesShape` pins them down as an alert then a healing request per stopped id, in order |
| `Watcher.StatusLine` | sentinel_watcher.py:94-97 | the status is all-clear exactly when the count is 0, and otherwise reports that count as needing attention; `AllClearIffNoneStopped` ties it to the scanned instances |
| `Watcher.ScanReservations` | sentinel_watcher.py:53-67 | the nested loops count exactly the instances of the flattened response, count exactly the stopped ones, and log exactly the alert/healing lines of the stopped ones in discovery order |
| `Watcher.ScanLinesShape` | sentinel_watcher.py:64-67 | alert and healing lines alternate, one pair per stopped id in order, and there are no other lines |
| `Watcher.ErrorFor` | sentinel_watcher.py:72-84 | missing credentials, an UnauthorizedOperation client error, any other client error and any other exception each get their own message |
| `Watcher.CheckEc2Instances` | sentinel_watcher.py:35-84 | on a response: progress line, then the alert/healing lines of the flattened instances, then the summary of the total and the stopped count; the returned count is the one in the summary and never exceeds the total; on any exception: the error line and exit status 1 with no count |
| `Watcher.Watch` | sentinel_watcher.py:87-97 | banner, scan, then the status line with exit status 0, or exit status 1 with no status line; the all-clear line appears exactly when the scan completed and no instance is stopped |
| `Watcher.AllClearIffNoneStopped` | sentinel_watcher.py:94-97 | all-clear exactly when no scanned instance is stopped, otherwise the count needing attention |
| `Watcher.AllClearIffNoReservationStopped` | sentinel_watcher.py:92-97 | the same, stated over the reservations of the response |
| `Watcher.EmptyResponse` | sentinel_watcher.py:53-59 | an empty reservation list gives 0 checked, 0 stopped and all-clear |

## Left out

- Creating the boto3 client and calling `describe_instances` (sentinel_watcher.py:46, 51) are network I/O through a library outside the model. Their result or exception is the `Describe` input.
- If client creation itself raised, the progress line would not be printed. The model folds that case into the failures of the call, which come after the progress line.
- A response item missing `InstanceId` or `State.Name` would raise `KeyError` partway through the loop. The generic handler would then exit with status 1 after some alerts had already printed. The model assumes the response has the shape the provider guarantees.
- Pagination: the source makes a single call and ignores any continuation token.
- Console formatting is left out: the ANSI bold of `print_bold`, the emoji, the exact message texts and the split between stdout and stderr. Each line is a `Line` value.
- `trigger_healing` internals: it is a placeholder print, modelled as a `Healing(id)` line.
