# Fence agents, verified

Fence agents cut a failed cluster node off from what it shares with the others. This project
models the hardest parts of them in Dafny and proves what the cluster relies on.

* **Persistent reservations** (`ScsiTarget`, `PrFabric`, `PrAgent`, `Enrolment`, `FenceScsi`,
  `FenceMpath`, `KeyText`, `FenceRun`, `FenceNode`).
  A logical unit is a map from I_T nexus to key, and a holder. `Fabric` is one node's view of the
  shared units: before each of its commands the other nodes may do anything lawful, and a command
  or its answer may get lost. The contracts of the agents hold for all such environments; the
  clauses that start with `Quiet` say in addition exactly what an undisturbed run does. Every node
  registers only its own non-zero key, and is named by it. `KeyText` is what the agents make of a key
  as it is written. `FenceRun` and `FenceNode` put both agents under the engine: in an undisturbed run
  it is known what each call is answered, and so which runs there are and how they end.
* **The kernel list** (`KernelList`, `KdumpOptions`): every operation of `list.h` on mutable nodes,
  against the sequence of the nodes of the ring. What an operation may write is in its `modifies`
  clause, field by field, so all other rings are untouched.
* **Security-group backups** (`Decimal`, `AwsBackup`, `AwsFence`): the greedy chunker, the tag
  store, the reassembly, and the fence/restore cycle.
* **The engine** (`Engine`, `Eaton`, `RunCommands`): callbacks answer from a script and are recorded
  in a trace, reply by reply; a script that ends is an agent that is killed, so results about all
  scripts are about all prefixes of all runs. `Eaton` is a client whose port arithmetic depends on the engine's
  pattern of calls.
* **Reversible transformations** (`Azure`, `Dsv`, `Quoting`, `Replacement`, `Html`).

`Wrappers` and `Ascii` hold what several modules use. `dafny verify dfyconfig.toml` checks all.

## What the code does not do

Where a property one would expect is false of the code, the model keeps the code, and a lemma says
exactly when the property holds.

* Both reservation agents compare the key they are given with the keys a device reports without
  lower-casing it. "off" with an upper-case key finds no registration, preempts nothing and reports
  success: it removes a registered victim exactly when the key is given in lower case
  (`OffRemovesIffLowerCase` of both agents, `OffLooksClean`). Of "0x" in front of a key `fence_scsi`
  strips only the zero, so there "off" removes the node that is meant exactly when its key is written in
  lower case and without "0x"; `fence_mpath` strips it (`OffRemovesIffPlain` of both agents). "on" with
  an upper-case key never finds the key it has registered, and always ends with an error (`SetStatusOn`
  of both agents).
* `fence_scsi` refuses the key 0, but not when it is written with more than one zero
  (`ZeroIsAccepted`).
* "off" succeeds at once when no device has the key, whether there are reservations or not
  (`AlreadyOff`); a node without a registration is kept from writing exactly when there is one
  (`RefusedIffReserved`).
* `register_dev` in "multi" mode registers a later slave that is a device-mapper device with a
  preempt of its own, which drops the paths before it: the result is exact when and only when all
  slaves found are disks (`EnrolmentIsExactIffDisks`).
* `fence_mpath` does not write a line its file has already, and reads the last line of a device: going
  back to a former key is not recorded (`RecordedIffNew`), and then "off" does not remove the
  victim (`OffUnitRemoves`).
* A security group comes back exactly when it is "sg-" and something that does not start with "sg-"
  (`StripRoundTrip`). Restoring succeeds exactly when fencing had changed an interface that had groups
  (`FenceThenRestore`): a keep-only fencing that only gave groups to an interface without any cannot be
  undone.
* A fencing by security groups fails exactly in remove mode, when each interface that has a listed
  group has no other (`FailsIffWouldEmpty`). It has written its backup by then, so the instance counts
  as fenced although nothing was changed (`FenceThenRestore`).
* `run_commands` takes the number 0 as no timeout, but compares before it converts: with the text "0",
  as an option is given, it stops waiting as soon as 5 seconds are over (`ZeroTextStops`).
* `get_power_status` of the Switched ePDU is right only because the engine never calls the setter twice
  without a status between (`RightIffSetsApart`), which holds for one plug (`FenceOutlet`).
* Unblocking an Azure interface fails when two configurations share a tag: exactly when one is named
  like another one, or "TYPE_" and another one (`NamesApartMeans`, `BlockThenUnblock`).
* `dsv_split` drops an empty last field (`RoundTrip`), so a machine without a connection state is not
  listed (`LineIsRead`).
* "on" from several plugs says that one of them is not off (`LastNonOffMeans`), and "on" from
  `fence_mpath` that one device has the key.

## Model

| member | source | states |
|---|---|---|
| ScsiTarget.Apply | agents/scsi/fence_scsi.py:124-184 | the registrations, the holder and the status after one PERSISTENT RESERVE OUT command, with both cases of PREEMPT |
| ScsiTarget.WhenRefused | agents/scsi/fence_scsi.py:124-184 | which commands are refused, and that a refused one changes nothing |
| ScsiTarget.ApplyKeepsReservation | agents/scsi/fence_scsi.py:134-184 | no command a node sends takes a reservation away, whatever it preempts |
| ScsiTarget.PreemptIsEvict | agents/scsi/fence_scsi.py:124-127 | preempting somebody else's key removes it when the sender holds the key it claims and the victim's key is there, and otherwise changes nothing |
| ScsiTarget.EvictMeans | agents/scsi/fence_scsi.py:124-127 | after an eviction nobody has the key, all others keep theirs, and a reservation stays |
| ScsiTarget.ReservationIsNeverLost | agents/scsi/fence_scsi.py:36-81 | in every command-level interleaving of any number of nodes a reservation is never lost, and the holder is always registered |
| ScsiTarget.RunStaysKeyed | agents/scsi/fence_scsi.py:134-178 | in every run each nexus is registered under the key of its own node |
| ScsiTarget.KeyStaysGone | agents/scsi/fence_scsi.py:59-81 | a key that is absent stays absent while its node sends no register command |
| ScsiTarget.RefusedIffReserved | agents/scsi/fence_scsi.py:71-81 | a node whose key is gone is kept from writing exactly when there is a reservation |
| ScsiTarget.FencedStaysFenced | agents/scsi/fence_scsi.py:59-81 | once its key is gone and the unit reserved, a silent victim is unregistered and its writes are refused along every continuation |
| PrFabric.Fabric.Send | agents/scsi/fence_scsi.py:124-184 | a command takes effect after what the others did meanwhile, or is lost; success is reported only for a command that took effect with status GOOD |
| PrFabric.Fabric.ReadKeys | agents/scsi/fence_scsi.py:201-218 | the keys reported are those registered at that moment; a failing command reports none, and ends the agent, which sends nothing after it |
| PrFabric.Fabric.ReadReservation | agents/scsi/fence_scsi.py:187-198 | the key reported is the one the holder is registered under |
| PrFabric.Fabric.Wait | agents/scsi/fence_scsi.py:36-81 | the turn of the other nodes only adds lawful steps to the run |
| PrFabric.Fabric.Keeps | agents/scsi/fence_scsi.py:59-81 | over any stretch of a run reservations are kept, and so is the absence of the key of a node that does not register |
| PrFabric.Fabric.TakeKeepsOwnKey | agents/scsi/fence_scsi.py:36-57 | units on which a node has seen its key still have it while nobody preempts it |
| PrAgent.PreemptKey | agents/scsi/fence_scsi.py:168-171 | undisturbed, the unit and the answer are those of PREEMPT with this host key and victim key |
| PrAgent.ReserveDev | agents/scsi/fence_scsi.py:181-184 | success means that the unit is reserved; undisturbed, exactly the effect of RESERVE |
| PrAgent.EnsureReserved | agents/scsi/fence_scsi.py:51-53 | it succeeds exactly when the unit is reserved in the end, also when another node was faster; an existing reservation is left alone |
| PrAgent.Ask | agents/scsi/fence_scsi.py:201-218 | whether the unit reports the key; where all nodes use their own keys, only a key in lower case is ever found |
| PrAgent.AskNext | agents/scsi/fence_scsi.py:22-32 | a unit that does not report the key adds to those it is gone from while its node is silent; one that reports this node's key is known to have it |
| PrAgent.Verify | agents/scsi/fence_scsi.py:71-81 | a device passes only when the key is gone and the device reserved at the end of the round |
| PrAgent.VerifyAll | agents/mpath/fence_mpath.py:63-75 | no failure counted means that all devices have passed and still do while the victim is silent; undisturbed, exactly when all are free of the key and reserved |
| PrAgent.UnfencedHold | agents/scsi/fence_scsi.py:39-57 | devices that have passed the loop for "on" keep this node registered while nobody preempts it |
| Enrolment.SlavesOfChain | agents/scsi/fence_scsi.py:338-346 | get_mpath_slaves finds all slaves of the first map, going down along first slaves, that has a disk as its first slave |
| Enrolment.ChainExists | agents/scsi/fence_scsi.py:338-346 | and there is such a map whenever it finds slaves |
| Enrolment.GetMpathSlaves | agents/scsi/fence_scsi.py:338-346 | the first slave found is a disk |
| Enrolment.PreemptOwn | agents/scsi/fence_scsi.py:158-165 | preempting one's own key leaves it on the sending nexus alone when it held the reservation, and on no nexus otherwise |
| Enrolment.RegisterAgain | agents/scsi/fence_scsi.py:162-165 | the second registration repairs exactly the case in which the preempt removed the first one |
| Enrolment.EnrolTwice | agents/scsi/fence_scsi.py:150-165 | registering first and then moving the key is the same as moving it |
| Enrolment.EnrolmentIsExact | agents/scsi/fence_scsi.py:134-165 | in every starting state the key ends on exactly the local path nexuses, other keys are untouched, and a reservation survives |
| Enrolment.DisksGetTheKey | agents/scsi/fence_scsi.py:134-165 | stated by the shape of the stack alone: the key comes to the nexus of each disk of the innermost map and to no other nexus |
| Enrolment.MapOverDisks | agents/scsi/fence_scsi.py:134-165 | for a map over disks, exactly to the nexuses of these disks |
| Enrolment.EnrolElsewhere | agents/scsi/fence_scsi.py:134-165 | the key is never given to a nexus that is not behind the device, and a device-mapper device takes it away from all those |
| Enrolment.EnrolmentIsExactIffDisks | agents/scsi/fence_scsi.py:134-140 | in "multi" mode this holds exactly when all the slaves found are disks |
| Enrolment.MapOverDiskAndMap | agents/scsi/fence_scsi.py:134-140 | such a stack: a map over a disk and another map loses the path of the disk |
| FenceScsi.Agent.RegisterHelper | agents/scsi/fence_scsi.py:174-178 | REGISTER AND IGNORE EXISTING KEY through the current path |
| FenceScsi.Agent.Renew | agents/scsi/fence_scsi.py:154-165 | the key is moved to the current nexus, or kept when no preempt is wanted |
| FenceScsi.Agent.RegisterPath | agents/scsi/fence_scsi.py:142-165 | undisturbed, register_dev on one path succeeds and moves the key there, whatever was registered and reserved before; in every interleaving it stops at the first command that fails |
| FenceScsi.Agent.RegisterDev | agents/scsi/fence_scsi.py:134-165 | undisturbed, register_dev leaves the unit that the enrolment functions describe, in both methods |
| FenceScsi.Agent.RegisterSlaves | agents/scsi/fence_scsi.py:136-141 | the first slave is registered with a preempt |
| FenceScsi.Agent.RegisterRest | agents/scsi/fence_scsi.py:139-140 | the other slaves are registered without a preempt |
| FenceScsi.Agent.GetStatus | agents/scsi/fence_scsi.py:19-33 | in every interleaving, "off" for another action than on means that no device has the key while its node is silent, and "on" for action on that all have this node's key while nobody preempts it; undisturbed, the answer is exact both ways |
| FenceScsi.Agent.Unfence | agents/scsi/fence_scsi.py:40-57 | a device that is not counted as a failure is reserved and has reported the key, which must be in lower case for that; undisturbed, the exact effect |
| FenceScsi.Agent.SetStatusOn | agents/scsi/fence_scsi.py:39-57 | a normal return means a reservation and, unless somebody preempts this node, a registration on every device, in every interleaving; undisturbed, it returns if and only if the key is given in lower case, and in multi mode every path of every device is registered then |
| FenceScsi.Agent.RegularHolds | agents/scsi/fence_scsi.py:39-57 | after registering, the nexus commands go through holds the key, and no foreign key has appeared |
| FenceScsi.Agent.OffUnitMeans | agents/scsi/fence_scsi.py:64-69 | one undisturbed round of "off" removes the victim, keeps a reservation, and keeps every node under its own key |
| FenceScsi.Agent.Fence | agents/scsi/fence_scsi.py:64-69 | one round of the first loop, exactly |
| FenceScsi.Agent.SetStatusOff | agents/scsi/fence_scsi.py:59-81 | a normal return means that the victim's key is gone from every device and each is reserved, whatever was lost or done meanwhile; undisturbed, it returns if and only if every device had a reservation |
| FenceScsi.Agent.OffAllRemoves | agents/scsi/fence_scsi.py:59-81 | with a lower-case key an undisturbed "off" removes the victim from every device |
| FenceScsi.Agent.OffRemovesIffLowerCase | agents/scsi/fence_scsi.py:59-81 | it removes a registered victim exactly when the key is given in lower case |
| FenceScsi.Agent.OffRemovesIffPlain | agents/scsi/fence_scsi.py:59-81 | and the node that the operator means exactly when its key is written in lower case and without 0x |
| FenceScsi.Agent.OnAllHolds | agents/scsi/fence_scsi.py:39-57 | undisturbed, every device has the key once on is done |
| FenceScsi.Agent.OnAllReaches | agents/scsi/fence_scsi.py:39-57 | and in multi mode every disk of the innermost map of every device |
| FenceScsi.Agent.OffLooksClean | agents/scsi/fence_scsi.py:71-81 | the second loop is satisfied whatever the spelling |
| FenceScsi.UpperCaseIsNotCanonical | agents/scsi/fence_scsi.py:611-625 | such a spelling exists: "A1" for "a1" |
| FenceMpath.LastLineCounts | agents/mpath/fence_mpath.py:156-170 | of several lines for a device the last one counts, and devices without a line have no key |
| FenceMpath.RecordedIffNew | agents/mpath/fence_mpath.py:140-154 | the key written is the key read back exactly when its line is new or the one in force |
| FenceMpath.GoingBackIsNotRecorded | agents/mpath/fence_mpath.py:140-154 | a device that goes back to a former key is still recorded with the later one |
| FenceMpath.JoinMeans | agents/mpath/fence_mpath.py:107-110 | all the paths are registered in the end, and nothing else has changed |
| FenceMpath.Agent.RegisterDev | agents/mpath/fence_mpath.py:107-110 | undisturbed, exactly this node's paths join the registrants |
| FenceMpath.Agent.DevWrite | agents/mpath/fence_mpath.py:140-154 | a line the file has already is not written again |
| FenceMpath.Agent.DevRead | agents/mpath/fence_mpath.py:156-170 | the dictionary read from the file |
| FenceMpath.Agent.GetStatus | agents/mpath/fence_mpath.py:15-29 | in every interleaving, "off" means that no device has the key while its node is silent, and "on" that some device has this node's key while nobody preempts it; undisturbed, "off" exactly when no device has the key |
| FenceMpath.Agent.OnUnitMeans | agents/mpath/fence_mpath.py:35-52 | after an undisturbed round of "on" all paths hold the key, the unit is reserved, a former holder stays, and no other node's registration has changed |
| FenceMpath.Agent.OnLunMeans | agents/mpath/fence_mpath.py:35-52 | after an undisturbed "on" every unit listed is reserved with this node registered on all paths, and no other node is affected |
| FenceMpath.Agent.Unfence | agents/mpath/fence_mpath.py:35-52 | a device that is not a failure is reserved, recorded and has reported the key, which must be in lower case for that; undisturbed, the exact effect |
| FenceMpath.Agent.SetStatusOn | agents/mpath/fence_mpath.py:32-52 | a normal return means registration, reservation and a line in the file for every device, in every interleaving; undisturbed, it returns if and only if the key is given in lower case |
| FenceMpath.Agent.Fence | agents/mpath/fence_mpath.py:57-61 | one round of the first loop, exactly |
| FenceMpath.Agent.OffUnitRemoves | agents/mpath/fence_mpath.py:57-61 | an undisturbed round removes the victim exactly when the recorded key is the one this node is registered under |
| FenceMpath.Agent.OffLunRemoves | agents/mpath/fence_mpath.py:54-61 | with an up-to-date file an undisturbed "off" removes the victim from exactly the units listed, and costs nobody else a registration or a unit its reservation |
| FenceMpath.Agent.OffRemovesIffLowerCase | agents/mpath/fence_mpath.py:54-61 | it removes a registered victim exactly when the key is given in lower case |
| FenceMpath.Agent.OffRemovesIffPlain | agents/mpath/fence_mpath.py:54-61 | and the node that the operator means exactly when its key is written in lower case, with or without 0x |
| FenceMpath.Agent.OffPassesIffReserved | agents/mpath/fence_mpath.py:54-75 | it then passes its own checks exactly when there was a reservation on every device |
| FenceMpath.Agent.SetStatusOff | agents/mpath/fence_mpath.py:54-75 | a normal return means that the victim's key is gone from every device and each is reserved; undisturbed, it returns exactly when that is so; undisturbed, a device that reports the key without being in the file makes it fail |
| KeyText.SameKeyIffSameNumber | agents/scsi/fence_scsi.py:625 | two texts stand for the same key exactly when they are the same hexadecimal number |
| KeyText.PrefixIsNotMeant | agents/scsi/fence_scsi.py:625 | 0x in front of digits makes no difference to the key that is meant |
| KeyText.ScsiKeyIff | agents/scsi/fence_scsi.py:625 | fence_scsi looks for the key that is meant exactly when it is written in lower case and without 0x |
| KeyText.MpathKeyIff | agents/mpath/fence_mpath.py:336 | fence_mpath does exactly when it is written in lower case |
| KeyText.ZeroIsAccepted | agents/scsi/fence_scsi.py:616-625 | the key 0 gets past the test for it exactly when it is written with two zeros or more |
| FenceRun.ReadLast | lib/fencing.py.py:836-861 | the status read last in a run whose replies are answers: the steady one once a setter call has been made |
| FenceRun.ReturnedMeans | lib/fencing.py.py:1003-1017 | a run whose replies are the answers ends in success only if the first setter call returns and the status is right then, or off was the first status |
| FenceRun.AbortedMeans | lib/fencing.py.py:1008-1017 | when that is so, it ends otherwise only by being killed |
| FenceRun.SetterCall | lib/fencing.py.py:836-861 | the setter calls of a run are numbered without a gap |
| FenceRun.SuccessIsConcluded | lib/fencing.py.py:1003-1017 | in a run that ends in success every call has returned, on has called the setter and off has been read last |
| FenceRun.KnownIsSuccess | lib/fencing.py.py:946-1070 | what is known after the calls of a successful run is what success is to mean |
| FenceNode.Case.AfterIsSteady | agents/scsi/fence_scsi.py:39-81 | once a setter call of either agent has returned on an undisturbed fabric, every other one returns and the status stays the same |
| FenceNode.Case.AnswersAreSteady | agents/scsi/fence_scsi.py:19-81 | so it is for the answers to all calls, after any number of setter calls |
| FenceNode.Case.OneCallAgrees | agents/scsi/fence_scsi.py:19-81 | a status, one setter call and the status after it are such a run whenever the setter returns |
| FenceNode.Case.DueIffSucceeds | agents/scsi/fence_scsi.py:19-81 | an undisturbed run is to succeed exactly if: on, there are devices and the key is spelled as the target spells it; off, no device reports the key, or the setter returns |
| FenceNode.Read | agents/scsi/fence_scsi.py:19-33 | a reading of either agent: sound in every interleaving, and the foreseen answer when undisturbed |
| FenceNode.Set | agents/scsi/fence_scsi.py:36-81 | a setter call of either agent: it returns only with all devices reserved, and, undisturbed, exactly when and with the units foreseen |
| FenceNode.FollowNext | lib/fencing.py.py:836-861 | one call of the engine, answered by the agent, adds to what is known; undisturbed, the answer and the units are those foreseen |
| FenceNode.Follow | lib/fencing.py.py:836-861 | all calls of a run of the engine, answered by the agent: undisturbed, they agree with the script exactly when the script is the foreseen answers |
| FenceNode.Fence | lib/fencing.py.py:946-1070 | fence_action with fence_scsi or fence_mpath: a successful off means that no device has the key while its node is silent, and every device is reserved unless off was the first answer; a successful on means all devices registered and reserved; undisturbed, it is known which scripts are runs, which units a success leaves, and a run succeeds if and only if that is due, unless it is killed |
| FenceNode.AlreadyOff | lib/fencing.py.py:1003-1006 | an undisturbed off for a key no device has, or in upper case, succeeds after one status and changes nothing |
| KernelList.Rotate | agents/kdump/list.h:176-232 | a ring may be listed from any of its nodes |
| KernelList.RingOfPieces | agents/kdump/list.h:44-52 | two linked pieces form a ring exactly when their ends meet |
| KernelList.InitListHead | agents/kdump/list.h:32-36 | a node alone is a ring |
| KernelList.Link | agents/kdump/list.h:44-52 | the node is put between the last and the first of a ring |
| KernelList.ListAdd | agents/kdump/list.h:62-66 | the node becomes the first entry |
| KernelList.ListAddTail | agents/kdump/list.h:76-80 | the node becomes the last entry |
| KernelList.Unlink | agents/kdump/list.h:89-94 | the ring without the entry; the entry keeps stale links |
| KernelList.Detach | agents/kdump/list.h:102-105 | the ring without the entry |
| KernelList.ListDel | agents/kdump/list.h:107-112 | the ring without the entry, which is left poisoned |
| KernelList.ListDelInit | agents/kdump/list.h:141-145 | the ring without the entry, which is a ring of its own |
| KernelList.ListReplace | agents/kdump/list.h:121-128 | the new node takes the place of the old one, also when the old one is alone |
| KernelList.ListReplaceInit | agents/kdump/list.h:130-135 | the same, and the old node is a ring of its own |
| KernelList.ListMove | agents/kdump/list.h:152-157 | an entry of the list becomes its first |
| KernelList.ListMoveTo | agents/kdump/list.h:152-157 | an entry of another ring becomes the first; the other ring closes behind it |
| KernelList.ListMoveTail | agents/kdump/list.h:164-169 | an entry of the list becomes its last |
| KernelList.ListMoveTailTo | agents/kdump/list.h:164-169 | an entry of another ring becomes the last; the other ring closes behind it |
| KernelList.TestsMean | agents/kdump/list.h:176-232 | what list_empty, list_empty_careful, list_is_last and list_is_singular say of the list |
| KernelList.ListRotateLeft | agents/kdump/list.h:215-223 | the first entry becomes the last |
| KernelList.Cut | agents/kdump/list.h:234-246 | a ring is cut in two |
| KernelList.ListCutPosition | agents/kdump/list.h:261-274 | the prefix up to and including the entry goes to the other list and the suffix stays; otherwise nothing changes |
| KernelList.Splice | agents/kdump/list.h:276-287 | two rings become one |
| KernelList.ListSplice | agents/kdump/list.h:294-299 | the entries come before those of the list |
| KernelList.ListSpliceTail | agents/kdump/list.h:306-311 | the entries come after those of the list |
| KernelList.ListSpliceInit | agents/kdump/list.h:320-327 | the entries come before those of the list, and the other list is empty |
| KernelList.ListSpliceTailInit | agents/kdump/list.h:337-344 | the entries come after those of the list, and the other list is empty |
| KernelList.CutThenSplice | agents/kdump/list.h:261-327 | cutting a list and splicing the piece back on its front is the identity |
| KernelList.CutThenSpliceTail | agents/kdump/list.h:261-344 | splicing the piece on the tail leaves the suffix followed by the prefix |
| KdumpOptions.Options.constructor | agents/kdump/options.h:101-114 | the defaults, and an empty list |
| KdumpOptions.FreeNode | agents/kdump/options.h:83-88 | memory is freed that has not been freed before |
| KdumpOptions.Follow | agents/kdump/list.h:505-509 | only links of live memory are followed |
| KdumpOptions.FreeFirst | agents/kdump/options.h:116-128 | the first entry leaves the list poisoned and freed |
| KdumpOptions.FreeNext | agents/kdump/options.h:116-128 | one round frees the first entry of what is left, and has read its link before |
| KdumpOptions.FreeOptions | agents/kdump/options.h:116-128 | for any length, the loop ends with the list empty and every node freed exactly once and poisoned |
| AwsBackup.JsonSizeIs | agents/aws_vpc_net/fence_aws_vpc_net.py:430-443 | the length of the JSON text of a backup, part by part |
| AwsBackup.ChunksAreGreedy | agents/aws_vpc_net/fence_aws_vpc_net.py:414-458 | the chunks hold all groups in order, none is empty, each fits or is a single group, and none could have taken the next group |
| AwsBackup.GreedyIsUnique | agents/aws_vpc_net/fence_aws_vpc_net.py:425-458 | there is only one such division |
| AwsBackup.MakeChunks | agents/aws_vpc_net/fence_aws_vpc_net.py:414-458 | the loop computes that division |
| AwsBackup.TagLength | agents/aws_vpc_net/fence_aws_vpc_net.py:425-475 | if every single group fits when tested with total 1, a tag has at most 254 + digits(total) - 1 characters: 256 for up to 999 chunks |
| AwsBackup.StripRoundTrip | agents/aws_vpc_net/fence_aws_vpc_net.py:422-423 | a group id survives stripping and restoring the prefix exactly when it is "sg-" and something that does not start with "sg-" |
| AwsBackup.JoinedIsFlatten | agents/aws_vpc_net/fence_aws_vpc_net.py:726-733 | chunks joined by index are the flattened list, with the prefix restored |
| AwsBackup.RestoreIsExact | agents/aws_vpc_net/fence_aws_vpc_net.py:414-736 | all chunks of an interface give back its groups exactly and in order, if and only if its ids have that form |
| Decimal.DecInjective | agents/aws_vpc_net/fence_aws_vpc_net.py:475-475 | numbers are told apart by their notation |
| AwsFence.KeysAreDistinct | agents/aws_vpc_net/fence_aws_vpc_net.py:475-475 | tag keys never collide across interfaces, chunks or timestamps |
| AwsFence.Combine | agents/aws_vpc_net/fence_aws_vpc_net.py:725-733 | a missing chunk is an error, and otherwise the chunks are joined in order |
| AwsFence.CompleteIff | agents/aws_vpc_net/fence_aws_vpc_net.py:724-725 | counting the chunks is enough to know that all of them are there |
| AwsFence.Absorb | agents/aws_vpc_net/fence_aws_vpc_net.py:700-736 | each tag keeps the dictionaries faithful to the original interfaces |
| AwsFence.Reassemble | agents/aws_vpc_net/fence_aws_vpc_net.py:692-740 | from any permutation of a backup, mixed with other tags, every non-empty list is rebuilt exactly and nothing else is |
| AwsFence.Ec2.CreateBackupTag | agents/aws_vpc_net/fence_aws_vpc_net.py:409-506 | exactly the tags of all chunks are written, and all others are kept |
| AwsFence.RemovingLeaves | agents/aws_vpc_net/fence_aws_vpc_net.py:561 | in remove mode exactly the groups that are not listed are left, each as often as before and in their order |
| AwsFence.NewGroupsFence | agents/aws_vpc_net/fence_aws_vpc_net.py:559-575 | an interface ends with its unlisted groups, with what it had when there are none, or with the listed groups |
| AwsFence.Ec2.ChangeGroups | agents/aws_vpc_net/fence_aws_vpc_net.py:552-600 | every interface gets its new groups, and whether one changed |
| AwsFence.Ec2.AnyAffected | agents/aws_vpc_net/fence_aws_vpc_net.py:604-620 | whether some interface has groups that should have been changed |
| AwsFence.FailsIffWouldEmpty | agents/aws_vpc_net/fence_aws_vpc_net.py:560-630 | nothing is changed although something should be exactly in remove mode, when each interface that has a listed group has no other |
| AwsFence.Ec2.ModifySecurityGroups | agents/aws_vpc_net/fence_aws_vpc_net.py:509-642 | an interface with some unlisted group ends with exactly its unlisted groups in order, the backup is written, and failure is characterised |
| AwsFence.Ec2.DescribeBackups | agents/aws_vpc_net/fence_aws_vpc_net.py:679-684 | exactly the tags with the prefix of the instance, in any order |
| AwsFence.Ec2.FindBackup | agents/aws_vpc_net/fence_aws_vpc_net.py:664-740 | a backup that is there is found, unless no interface had a group |
| AwsFence.Ec2.Apply | agents/aws_vpc_net/fence_aws_vpc_net.py:742-795 | every interface in the backup gets its list, the others keep theirs, and a change is noticed |
| AwsFence.Ec2.CleanUp | agents/aws_vpc_net/fence_aws_vpc_net.py:800-819 | lastfence and exactly the backup tags of that timestamp are deleted |
| AwsFence.Ec2.RestoreSecurityGroups | agents/aws_vpc_net/fence_aws_vpc_net.py:644-829 | a failure changes nothing; with a complete backup the lists are the original ones, and it succeeds exactly when one of them differed |
| AwsFence.Ec2.IsInstanceFenced | agents/aws_vpc_net/fence_aws_vpc_net.py:91-162 | fenced exactly when the groups are as fencing leaves them or a backup of the last fencing exists |
| AwsFence.CleanedUp | agents/aws_vpc_net/fence_aws_vpc_net.py:800-819 | deleting a backup leaves the tags there were before, lastfence excepted |
| AwsFence.Ec2.FenceThenRestore | agents/aws_vpc_net/fence_aws_vpc_net.py:509-829 | a fencing undone: every interface that had groups has its original list, success exactly when one of these had been changed, and older backups stay; a fencing that fails changes nothing; failed or not, the instance counts as fenced exactly when a group is listed or some interface had one |
| Engine.LastNonOffMeans | lib/fencing.py.py:817-834 | "off" exactly when every plug is off; any other answer is the status of one plug only |
| Engine.Engine.GetMulti | lib/fencing.py.py:817-834 | one reading per plug, in order, as the callback has replied, and the last one that is not off |
| Engine.Engine.Poll | lib/fencing.py.py:853-859 | sweeps until the action is reached or as many as the power timeout; with a power timeout it ends in every run |
| Engine.Engine.AsyncSet | lib/fencing.py.py:836-861 | in every run, also one that fails, setter calls and readings are within attempts and attempts times the power timeout per plug; True is returned exactly when the last sweep equals the action |
| Engine.TimesIs | lib/fencing.py.py:836-861 | these bounds are the products |
| Engine.AsyncIsBounded | lib/fencing.py.py:836-861 | with a power timeout T > 0 at most attempts times T sweeps, and attempts setter calls per plug |
| Engine.AsyncRunIsBounded | lib/fencing.py.py:853-859 | the rounds of a finished run are within that bound |
| Engine.VainSets | lib/fencing.py.py:836-861 | attempts made in vain are that many setter calls for each plug |
| Engine.Engine.TryPlug | lib/fencing.py.py:874-880 | a plug is tried until it works, and in every run at most so many times |
| Engine.Engine.TryEach | lib/fencing.py.py:863-916 | every plug is tried, within the bound in every run; for at least one attempt True means that each plug had a successful call, and False that all the calls for some plug have failed |
| Engine.Engine.SetMulti | lib/fencing.py.py:886-894 | with the asynchronous setter success ends with a sweep that equals the action and a time-out with another one; with the synchronous one success means a successful call for each plug and failure that all the calls for some plug have failed |
| Engine.FencedMeans | lib/fencing.py.py:997-1052 | a fenced trace has a sweep in which every plug reported off, and nothing was turned on before it was over |
| Engine.Engine.FenceAction | lib/fencing.py.py:946-1070 | success of off, and of reboot by off and on, means a fenced trace, of on a sweep that is on, of a synchronous setter or the cycle method a successful call for each plug; a reboot whose plugs have been turned off fails only if the program is left; an action fails only with an odd status at the start or with all its attempts made in vain, 1 + retry-on for on and for the cycle method, one for off and for turning off in a reboot; status is 2 exactly after a sweep that is off; when the first sweep is as wanted nothing is done; and in every run calls are bounded, and alternate with readings for one plug; without a getter an action that asks for the status fails at once, and what only lists outlets asks nothing |
| Engine.Engine.DoSet | lib/fencing.py.py:1008-1017 | the branches for on and off: success means what it does for the setter; failure, unless a callback ended the run, that each of the attempts has run out of time, with that many setter calls for each plug, or that all the calls for some plug have failed |
| Engine.Engine.DoReboot | lib/fencing.py.py:1018-1052 | success means turned off before anything was turned on, and failure that the power-off phase did not succeed or the program was left |
| Engine.Engine.DoCycle | lib/fencing.py.py:1020-1028 | success means a successful cycle call for each plug |
| Engine.Engine.PowerOff | lib/fencing.py.py:1031-1034 | success means turned off; a time-out leaves a last sweep that is not off |
| Engine.Engine.PowerOn | lib/fencing.py.py:1036-1046 | no failure or exception of the power-on phase fails the reboot, and the action is switched back; the plugs are on at the end, or retry-on attempts have been made in vain |
| Engine.Engine.FirstStatus | lib/fencing.py.py:997-1001 | the first plug is asked first; an on or off status with its sweep, or the end |
| Eaton.Pdu.ResolvePortId | agents/eaton_snmp/fence_eaton_snmp.py:81-116 | the port of a numeric outlet, which is counted from 1 on a Switched ePDU |
| Eaton.Pdu.GetPowerStatus | agents/eaton_snmp/fence_eaton_snmp.py:118-140 | the port moves back after a setter call on a Switched ePDU |
| Eaton.Pdu.SetPowerStatus | agents/eaton_snmp/fence_eaton_snmp.py:142-156 | the port moves on before a write on a Switched ePDU |
| Eaton.Pdu.Serve | agents/eaton_snmp/fence_eaton_snmp.py:81-156 | one access for each call, in order; the outlet is turned on exactly for the action on, through the right port unless two setter calls follow each other |
| Eaton.WhatIsWritten | agents/eaton_snmp/fence_eaton_snmp.py:156 | a control write turns the outlet on exactly for the action on |
| Eaton.RightIffSetsApart | agents/eaton_snmp/fence_eaton_snmp.py:118-156 | on a Switched ePDU all accesses go to the right ports exactly when no setter call follows another one directly |
| Eaton.ManagedKeepsPort | agents/eaton_snmp/fence_eaton_snmp.py:118-156 | a Managed ePDU keeps to one port |
| Eaton.EngineSetsApart | lib/fencing.py.py:836-861 | the calls of every run of the engine for one plug have no setter call after a setter call |
| Eaton.FenceOutlet | agents/eaton_snmp/fence_eaton_snmp.py:211-213 | in every run of the engine for one outlet u there is one access for each of its calls, reads of u and writes to u + 1 that turn on exactly for the action on, over any number of retries; the run is one of fence_action, with all that says of it |
| RunCommands.ZeroTextStops | lib/fencing.py.py:1117-1122 | with the text 0 as timeout the loop stops as soon as 5 seconds are over; the number 0 is no limit |
| RunCommands.MayStopMeans | lib/fencing.py.py:1117-1176 | when the loop may stop with processes running, for every kind of timeout |
| RunCommands.CodesCount | lib/fencing.py.py:1107-1115 | none of the exit codes returned is lost and none is added: each is collected as often as it was returned |
| RunCommands.Runner.CheckAll | lib/fencing.py.py:1146-1154 | each process that is alive is waited for exactly once, in any order, and the exit codes are those returned, each for its process |
| RunCommands.Runner.CheckGone | lib/fencing.py.py:1149-1153 | one process is waited for, and the code kept for it is the one returned |
| RunCommands.Runner.CountGood | lib/fencing.py.py:1165-1168 | how many collected processes exited with 0 |
| RunCommands.Runner.Enough | lib/fencing.py.py:1159-1176 | it stops if and only if 5 seconds are over and there is a strict majority of good exits or the timeout has elapsed |
| RunCommands.Runner.BestStatus | lib/fencing.py.py:1180-1182 | 0 exactly when a collected process exited with 0, in any order |
| RunCommands.Runner.OneRound | lib/fencing.py.py:1145-1176 | one round of waiting and testing: over exactly when nobody is alive or the tests say so |
| RunCommands.Runner.WaitLoop | lib/fencing.py.py:1145-1176 | the rounds follow one another, none left out, up to the first one to stop after |
| RunCommands.Runner.Run | lib/fencing.py.py:1105-1212 | gone and alive partition the processes, every exit code returned is collected for its process and as often as returned, the loop stops with processes running exactly after the first round that allows it, only a world that has nothing more to say keeps it from ending, and the status is 0 exactly when a wait returned 0 |
| RunCommands.GoodMajority | lib/fencing.py.py:1164-1170 | the test that more are gone than alive holds nothing up |
| Azure.GetRule | lib/azure_fence.py.py:183-205 | a rule that denies all is found exactly when there is one |
| Azure.ClosedMeans | lib/azure_fence.py.py:183-205 | a closed subnet has both rules, literally |
| Azure.ClosedRefuses | lib/azure_fence.py.py:158-205 | a closed subnet refuses every packet in both directions, whatever its other rules are |
| Azure.InFenceIsIsolated | lib/azure_fence.py.py:207-232 | so a configuration in its fence subnet is cut off |
| Azure.TestFenceSubnet | lib/azure_fence.py.py:158-181 | the test passes exactly for a subnet closed both ways |
| Azure.FindSubnet | lib/azure_fence.py.py:151-156 | None exactly when no subnet has the name, ignoring case, and otherwise the first one |
| Azure.GetSubnet | lib/azure_fence.py.py:151-156 | the loop finds that subnet |
| Azure.FindUnique | lib/azure_fence.py.py:151-156 | with unique names a subnet is found by its own name |
| Azure.KeysCollide | lib/azure_fence.py.py:256-259 | which tag keys of two configurations coincide |
| Azure.NamesApartMeans | lib/azure_fence.py.py:256-259 | no tag is shared exactly when no name equals another one or "TYPE_" and another one |
| Azure.TypeNameCollides | lib/azure_fence.py.py:256-259 | such names: "a" and "TYPE_a" |
| Azure.MoveToFence | lib/azure_fence.py.py:252-263 | a configuration is moved exactly when its network has a closed fence subnet; only subnet and allocation method change |
| Azure.BlockNic | lib/azure_fence.py.py:252-263 | blocking an interface moves all configurations and saves their data, or fails as the first bad one decides |
| Azure.SaveMeans | lib/azure_fence.py.py:256-259 | the tags of a blocked interface are the saved data on top of the original ones |
| Azure.UnblockNic | lib/azure_fence.py.py:264-287 | the loop restores configuration by configuration from what tags are left |
| Azure.RestoreOneIff | lib/azure_fence.py.py:264-287 | when a configuration with its three tags is restored, and how it fails otherwise |
| Azure.RestoreOneNeedsTags | lib/azure_fence.py.py:264-270 | and that it is not restored without all of them |
| Azure.RestoreAllMeans | lib/azure_fence.py.py:264-287 | with all data saved, subnets, allocation methods and non-empty addresses come back, and the original tags |
| Azure.SuccessNeedsDisjoint | lib/azure_fence.py.py:268-270 | unblocking cannot succeed when two configurations share a tag |
| Azure.BlockThenUnblock | lib/azure_fence.py.py:252-287 | block, then unblock: it succeeds exactly when the names are apart, and then everything is as it was |
| Azure.MovedIsInFence | lib/azure_fence.py.py:207-232 | a moved configuration counts as fenced |
| Azure.VirtualMachine.GetNetworkState | lib/azure_fence.py.py:207-232 | off exactly when every configuration is in the closed fence subnet of its network, which lets no packet through |
| Azure.TenAttempts | lib/azure_fence.py.py:241-301 | an interface is reached within ten attempts, cloud errors being retried |
| Azure.VirtualMachine.TryNic | lib/azure_fence.py.py:241-301 | up to ten attempts; an interface is updated by one attempt or not at all |
| Azure.VirtualMachine.SetNetworkState | lib/azure_fence.py.py:234-301 | what becomes of every interface, and where the agent leaves |
| Azure.VirtualMachine.BlockAndUnblock | lib/azure_fence.py.py:207-301 | a blocked machine counts as off, and after unblocking every interface is what it was exactly when all names are apart |
| Dsv.DsvSplit | agents/vmware/fence_vmware.py:60-89 | the loop computes the fields |
| Dsv.EscapedFieldIsRead | agents/vmware/fence_vmware_helper.pl:40-45 | an escaped field is read as the field, wherever it stands |
| Dsv.OtherEscapes | agents/vmware/fence_vmware.py:77-84 | a backslash before any other character is kept, one at the end is lost |
| Dsv.LineLooksLike | agents/vmware/fence_vmware_helper.pl:140-143 | what a line of fields with colons, backslashes and nothing in them looks like |
| Dsv.StatesMean | agents/vmware/fence_vmware.py:178-184 | of the power and connection states there are, only a machine that is powered on is on, and with the hack only one that is connected |
| Dsv.SplitJoin | agents/vmware/fence_vmware.py:60-89 | splitting a joined list gives it back, but for an empty last field |
| Dsv.RoundTrip | agents/vmware/fence_vmware.py:60-89 | splitting inverts joining exactly on the lists whose last field is not empty |
| Dsv.LineIsRead | agents/vmware/fence_vmware_helper.pl:140-143 | a machine is listed exactly when it has a connection state |
| Dsv.LinesOfFour | agents/vmware/fence_vmware.py:173-184 | lines of another number of fields than four are passed over |
| Dsv.GetOutlets | agents/vmware/fence_vmware.py:161-188 | the table of the lines with four fields; two of one name are an error |
| Dsv.OutletsOf | agents/vmware/fence_vmware.py:161-188 | every machine is found under its name with its own power state, and no other name is |
| Quoting.QuoteForRun | agents/vmware/fence_vmware.py:93-102 | the loop computes what the other version replaces |
| Quoting.QuotedTextIsRead | lib/fencing_snmp.py.py:18-19 | inside single quotes a quoted text is read as the text |
| Quoting.QuotedIsOneWord | lib/fencing_snmp.py.py:18-19 | between single quotes any quoted text is one word for a shell, and what follows is left alone |
| Replacement.ReplaceConcat | lib/fencing.py.py:1582-1584 | replacing works piece by piece |
| Html.ChainIsOnePass | lib/fencing.py.py:1582-1584 | a chain of replacements is one pass when no rule looks for what an earlier one has put in |
| Html.EncodeIsOnePass | lib/fencing.py.py:1582-1584 | the five replacements are one pass over the text |
| Html.DecodeEachChar | lib/fencing.py.py:1582-1584 | codes that can be told apart are decoded to the text |
| Html.RoundTrip | lib/fencing.py.py:1582-1584 | every text is decoded to itself |
| Html.EncodedTextIsRead | lib/fencing.py.py:1582-1584 | an XML processor, which knows the five predefined entities, reads every encoded text as the text |
| Html.EncodedHasNoMarkup | lib/fencing.py.py:1582-1584 | no quote or angle bracket is left in an encoded text |

## Left out

- Processes, pexpect sessions, boto3, Azure and SNMP calls, sockets and file access: oracles, scripts and abstract stores stand for them.
- Regular expressions over tool output and resource ids, JSON syntax, md5 key generation, logging, option tables and metadata: parsed values are inputs.
- Exact timing: sleeps have no effect, and an agent that is killed is a run that ends early.
- The other agents: login sequences and status lookups of one branch each.
- Distinct keys of nodes: a node is named by its key, so two nodes with one key cannot be said; nor can a node that registers a key which is not its own.
- Races in which the victim itself goes on registering: its silence is a hypothesis of the fencing results.
- PrAgent.PreemptKey: PREEMPT AND ABORT changes registrations and reservations as PREEMPT does; the abort of tasks, sg_turs, APTPL and the read-only flag have no effect in the model, nor has the file of devices that dev_write appends to.
- FenceMpath.Agent.RegisterDev: mpathpersist is REGISTER with reservation key 0 on each path, one after the other; its own handling of failed paths is not modelled.
- FenceMpath.Agent.SetStatusOff: the clause about undisturbed runs is about victims other than the recorded key, as the agent does not keep a node from fencing itself.
- FenceNode.Fence: the agents answer the calls of a run of the engine; a run whose replies they have not given is told apart by `agreed`, which is characterised for undisturbed runs, in which every node uses its own key and, for "off", the victim's key is not 0 and the file of fence_mpath knows the devices.
- FenceScsi.Agent.SetStatusOn: what an "on" with an upper-case key leaves on the devices before it fails.
- KeyText.ScsiKey: what sg_persist makes of a text that is no hexadecimal number, as the key that is left of one with "0x".
- KernelList.ListDel: both poison addresses are null, which the model does not follow either; list.h is otherwise taken as sequential code, without its use under RCU.
- KernelList.ListCutPosition: an entry that is in another list of two or more nodes corrupts both lists, as the source warns; the precondition leaves that out.
- KdumpOptions.FreeOptions: node names and resolved addresses are part of the node that is freed.
- AwsBackup.JsonSizeIs: ids are plain ASCII text that needs no escapes, with Python's default separators.
- AwsFence.Ec2.ModifySecurityGroups: API calls succeed; write-failure options, interface options and skip_tags are not modelled.
- AwsFence.Ec2.RestoreSecurityGroups: documents whose fields are missing are taken as text that is no JSON.
- Engine.Engine.FenceAction: listing outlets, printing and the choice between exit codes of failures; the power timeout 0 makes the polling loop end only with the script.
- Eaton.Pdu.ResolvePortId: outlets given by name, which are looked up in a table.
- RunCommands.Runner.Run: starting the processes and collecting their output; all are taken as started, and a timeout that is text as a number in it.
- Azure.ClosedRefuses: a security group decides by the applicable rule of the lowest priority number, priorities being 100 or more and different in each direction; how patterns other than "*" match, and whether rules that are not provisioned are in force, is left open.
- Azure.VirtualMachine.SetNetworkState: a resource id is read by a table from texts to network and parts; a network that is missing ends the attempts like any other exception, and a failing attempt leaves the interface as it is.
- Azure.VirtualMachine.GetNetworkState: API failures, which end the agent like ids that cannot be read.
- Azure.BlockThenUnblock: tags of an earlier block are excluded; a second block overwrites them.
- Dsv.OutletsOf: names without line breaks, as each machine is one line.
- Quoting.ReadWord: double quotes and the other characters with a meaning outside quotes are refused, as quoted texts have none there.
