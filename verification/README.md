# Pixel kernel drivers: SysMMU v9, pixel_em profiles, GS101 TMU rules

This project is a Dafny model of three pieces of a Pixel (GS101) Linux kernel tree, with proofs about the model.

- **Samsung SysMMU v9 IOMMU driver** (`drivers/iommu/samsung-iommu-v9.c`):
  - the two-level I/O page table (`SysmmuTable`). It covers second-level table allocation, section, large-page and small-page mapping with their "already in use" checks, the per-slot live-entry counter (`lv2entcnt`), unmapping and address translation;
  - the driver state around it (`Sysmmu`): per-VM register write fan-out, TLB invalidation of every unit in a domain's group, attach/detach reference counting, the DMA window, domain allocation with the one-shot 36-bit latch set by `of_xlate`, and the runtime/system PM callbacks.
- **pixel_em** (`drivers/soc/google/vh/kernel/pixel_em/pixel_em.c`), in module `PixelEm`: profile name validation and lookup, the energy-model table update with the "inefficient" marking, profile consistency checking, capacity scaling to 1024, the text profile grammar, publishing a new profile or updating an existing one in place, and the `active_profile` store.
- **GS101 TMU** (`drivers/thermal/samsung/gs101_tmu_v2.c`), in module `Gs101Tmu`: trip-point programming at initialisation, temperature reading with the frequency-limit hysteresis, CPU hotplug throttling, emulation, trend, and the ECT parameter lookup.

How the model represents the hardware and the kernel:
- Register writes are never performed. They are appended to a write log, in program order.
- Hardware page-table entries are tagged values rather than bit patterns.
- Kernel services (the memory allocator, the PM core, ACPM, the thermal core) enter as parameters that carry their outcome.

Modules:
- `Errors`: the errno values and the `Status`/`Result`/`Option` types.
- `CStrings`: `tolower` and `strncasecmp(...) == 0`.
- `SysmmuTable`, `Sysmmu`, `PixelEm` and `Gs101Tmu`: the three drivers.

Where the code and its surrounding description differ, the model follows the code:
- **DMA window re-application.** `samsung_sysmmu_set_domain_range` accepts an empty window without checking it when the domain's aperture was not yet forced. So re-applying the same window is idempotent exactly when the resulting aperture is non-empty (`Sysmmu.SetDomainRangeIdempotent`).
- **Temperature units.** `gs101_get_temp` compares millidegree temperatures with the limit thresholds as the code does. The model does not convert the thresholds.

## Model

| member | source | states |
|---|---|---|
| SysmmuTable.EmptyTable | drivers/iommu/samsung-iommu-v9.c:238-249 | A freshly allocated first-level table of either length is well formed and translates no address. |
| SysmmuTable.LiveFill | drivers/iommu/samsung-iommu-v9.c:525-553 | Overwriting a run of second-level entries with one entry changes the number of used entries by the run's length times that entry's use, less the used entries it replaced. |
| SysmmuTable.LiveZero | drivers/iommu/samsung-iommu-v9.c:447-480 | A second-level table has no used entries exactly when every entry is unmapped. |
| SysmmuTable.LiveUpdate | drivers/iommu/samsung-iommu-v9.c:525-553 | Changing one entry changes the used-entry count by the difference of the two entries' use. |
| SysmmuTable.Decompose | drivers/iommu/samsung-iommu-v9.c:555-587 | An I/O address splits into its first-level index, second-level index and in-page offset, at small-page, large-page and section granularity. |
| SysmmuTable.Compose | drivers/iommu/samsung-iommu-v9.c:555-587 | Rebuilding an address from a first-level and a second-level index gives back those two indices. |
| SysmmuTable.BlockOf | drivers/iommu/samsung-iommu-v9.c:555-655 | Two addresses share a section, small page or large page exactly when they share the corresponding table indices. |
| SysmmuTable.Lookup | drivers/iommu/samsung-iommu-v9.c:705-726 | An address translates exactly when its first-level slot is a section or its second-level entry is used. |
| SysmmuTable.LookupKeepsPageOffset | drivers/iommu/samsung-iommu-v9.c:705-726 | A translated address keeps the input's offset within its 4 KiB page. |
| SysmmuTable.IovaToPhys | drivers/iommu/samsung-iommu-v9.c:705-726 | `iova_to_phys` returns 0 for an unmapped address and the translation otherwise. |
| SysmmuTable.Granule | drivers/iommu/samsung-iommu-v9.c:705-726 | The mapping size covering an address is zero exactly when it is unmapped, and a supported page size otherwise. |
| SysmmuTable.MapProt | drivers/iommu/samsung-iommu-v9.c:565-566 | A privileged mapping loses the cacheable (shareable) attribute; an unprivileged one keeps it; no other attribute bit changes. |
| SysmmuTable.AllocLv2Entry | drivers/iommu/samsung-iommu-v9.c:447-480 | Allocating a second-level table fails with EADDRINUSE over a section and with ENOMEM when allocation fails. Otherwise it installs an empty table with a zero counter, or keeps the one already there. |
| SysmmuTable.AllocLv2EntryPreserves | drivers/iommu/samsung-iommu-v9.c:447-480 | Installing a second-level table keeps the page table valid and changes no address translation. |
| SysmmuTable.Lv1SetSection | drivers/iommu/samsung-iommu-v9.c:487-523 | A section replaces an unmapped slot, or a second-level table whose counter is zero (then asking for a TLB sync and setting the counter to 256). Over a section or a table with live entries it fails with EADDRINUSE and changes nothing. |
| SysmmuTable.SetLargeRun | drivers/iommu/samsung-iommu-v9.c:537-550 | The large-page loop succeeds exactly when the rest of the 16-entry run is free, and on failure rolls back every entry it wrote. |
| SysmmuTable.LargeLoopOutcome | drivers/iommu/samsung-iommu-v9.c:537-550 | Run from the start, the loop writes all 16 entries when the run is free and otherwise leaves the table as it was. |
| SysmmuTable.Lv2SetPage | drivers/iommu/samsung-iommu-v9.c:525-553 | A small page needs its entry free and a large page its 16-entry run free. On success the entries are written and the counter grows by 1 or 16; on failure the result is EADDRINUSE with nothing changed. |
| SysmmuTable.Lv2SetPageKeeps | drivers/iommu/samsung-iommu-v9.c:525-553 | Setting a page keeps large-page runs aligned and keeps the counter equal to the number of used entries. |
| SysmmuTable.Map | drivers/iommu/samsung-iommu-v9.c:447-587 | `map` fails only with EADDRINUSE or ENOMEM, and with ENOMEM exactly when a page mapping needs a new second-level table over an unmapped slot and allocation fails. On success the section, small-page entry or 16-entry large run holds the address with the shareable attribute from the adjusted prot. It touches no other first-level slot and requests a sync exactly when a section replaces a second-level table whose counter is zero. |
| SysmmuTable.MapFailureUnchanged | drivers/iommu/samsung-iommu-v9.c:555-587 | A failed map leaves the page table unchanged and requests no sync. |
| SysmmuTable.MapPreservesValid | drivers/iommu/samsung-iommu-v9.c:555-587 | Mapping keeps the table valid: every second-level table's counter equals its number of used entries, and each large page fills its whole aligned 16-entry run. |
| SysmmuTable.MapTranslates | drivers/iommu/samsung-iommu-v9.c:555-587 | After a successful map, every address in the mapped block translates to the aligned physical address plus its offset in the block, and every other address translates as before. |
| SysmmuTable.MapInUseIff | drivers/iommu/samsung-iommu-v9.c:487-553 | Map reports EADDRINUSE exactly when part of the requested block was already mapped. |
| SysmmuTable.MapGranule | drivers/iommu/samsung-iommu-v9.c:555-587 | After a successful map, the requested address is covered by a mapping of exactly the requested size. |
| SysmmuTable.AddRange | drivers/iommu/samsung-iommu-v9.c:589-655 | Adding a range to a gather yields the smallest interval containing both the old gather and the new range. |
| SysmmuTable.Unmap | drivers/iommu/samsung-iommu-v9.c:589-655 | `unmap` returns 0 and changes nothing when the request is smaller than the mapping. It clears a section, a small page, or a whole 16-entry large run and lowers the counter by 1 or 16. Over an unmapped slot it returns the clipped size. Every unmapped range joins the gather. |
| SysmmuTable.UnmapPreservesValid | drivers/iommu/samsung-iommu-v9.c:589-655 | Unmapping keeps the table valid. |
| SysmmuTable.UnmapClears | drivers/iommu/samsung-iommu-v9.c:589-655 | Unmapping a mapped address removes exactly the block of the mapping that covered it: addresses in that block no longer translate and all others translate as before. |
| SysmmuTable.MapThenUnmap | drivers/iommu/samsung-iommu-v9.c:555-655 | Unmapping an aligned block just mapped, with the same size, returns that size and restores every address translation. |
| Sysmmu.WriteAllVmFromSpec | drivers/iommu/samsung-iommu-v9.c:112-122 | The per-VM write loop writes the command once to every VM selected by the unit's VM mask and count, to no other VM, in increasing VM order. |
| Sysmmu.WriteAllVmExactly | drivers/iommu/samsung-iommu-v9.c:112-122 | A write is in a unit's fan-out exactly when its VM is selected, and the fan-out is strictly ordered by VM. |
| Sysmmu.RangeFieldsCover | drivers/iommu/samsung-iommu-v9.c:129-136 | The start and end VPN register fields encode the page of the first byte and the page after the last byte of the range, so the invalidated pages cover it. |
| Sysmmu.EnableOrder | drivers/iommu/samsung-iommu-v9.c:196-203 | Enabling a unit writes, for every selected VM, the enable command, then the first-level table base, then a full invalidation, in that order. |
| Sysmmu.FanOut | drivers/iommu/samsung-iommu-v9.c:657-703 | A group invalidation writes only to serving units of the group and their selected VMs, and reaches every such VM with the full or range invalidation requested. |
| Sysmmu.FanOutReachesIff | drivers/iommu/samsung-iommu-v9.c:657-703 | A unit receives invalidation writes exactly when it is in the group, is serving (attached and runtime-active), and has a selected VM. |
| Sysmmu.FlushIotlbAll | drivers/iommu/samsung-iommu-v9.c:657-679 | `flush_iotlb_all` does nothing for a domain without a group. Otherwise it appends exactly the group's fan-out of full invalidations: every selected VM of every serving unit in the group receives one, and nothing else is written. No unit state changes. |
| Sysmmu.IotlbSync | drivers/iommu/samsung-iommu-v9.c:681-703 | `iotlb_sync` appends exactly the group's fan-out of the gathered range: every selected VM of every serving unit in the domain's group receives the range-start and range-end writes, and nothing else is written. |
| Sysmmu.DetachDrvdata | drivers/iommu/samsung-iommu-v9.c:285-299 | Detaching a unit drops its reference count by one. The last reference leaves the group list, clears the page table and group, and disables the unit if it is runtime-active; other units are untouched. |
| Sysmmu.AttachUnit | drivers/iommu/samsung-iommu-v9.c:386-399 | Attaching a unit raises its count. The first reference joins the group list, records the page table and enables the unit if active. A later reference succeeds exactly when the page tables match. |
| Sysmmu.FirstAttachJoinsGroup | drivers/iommu/samsung-iommu-v9.c:386-393 | The first attach of a unit puts it at the head of its group list with the domain's page table. |
| Sysmmu.LastDetachLeavesGroup | drivers/iommu/samsung-iommu-v9.c:285-299 | Dropping the last reference removes the unit from its group list and clears its group. |
| Sysmmu.AttachUnitThenDetach | drivers/iommu/samsung-iommu-v9.c:285-299 | A first attach followed by a detach restores the count and the group list. |
| Sysmmu.DetachReverse | drivers/iommu/samsung-iommu-v9.c:410-416 | The error-path rollback drops each listed unit's count once per occurrence. |
| Sysmmu.SetDomainRange | drivers/iommu/samsung-iommu-v9.c:301-352 | Without a DMA window the domain is unchanged. An unforced aperture becomes exactly the window, with the end wrapped at 64 bits and clamped to the 32-bit DMA limit, and is forced. A forced aperture fails with ERANGE, unchanged, exactly when its intersection with the window is empty; otherwise it becomes that intersection. |
| Sysmmu.SetDomainRangeIdempotent | drivers/iommu/samsung-iommu-v9.c:301-352 | Re-applying a window succeeds exactly when the aperture it produced is non-empty, and then changes nothing. |
| Sysmmu.AttachDevAsWritten | drivers/iommu/samsung-iommu-v9.c:354-419 | `attach_dev` as written: ENXIO for foreign or missing firmware data, ENODEV without a client. |
| Sysmmu.AttachDevLeaksReference | drivers/iommu/samsung-iommu-v9.c:383-418 | When a unit of the client is already attached with another page table, attach fails with EINVAL and that unit's count stays one higher. |
| Sysmmu.AttachDev | drivers/iommu/samsung-iommu-v9.c:354-419 | Attach fails with ENXIO for foreign firmware data and ENODEV without a client. It fails with EINVAL exactly when some unit of the client is already attached to another page table. It fails with ERANGE exactly when there is no such unit and the DMA window leaves an empty aperture. Otherwise it succeeds with the new aperture. Every failure leaves every count as it was; on success each unit's count rises by the number of times the client lists it. |
| Sysmmu.AttachLoopFailsIff | drivers/iommu/samsung-iommu-v9.c:383-399 | The attach loop stops on a conflict exactly when some listed unit was already attached to another page table; a unit listed twice never conflicts with itself. |
| Sysmmu.AttachThenDetach | drivers/iommu/samsung-iommu-v9.c:354-440 | A successful attach followed by `detach_dev` restores every unit's reference count. |
| Sysmmu.DetachDev | drivers/iommu/samsung-iommu-v9.c:421-440 | `detach_dev` drops each listed unit's count once per occurrence. |
| Sysmmu.DomainAlloc | drivers/iommu/samsung-iommu-v9.c:221-272 | A domain is created exactly for a supported type when allocation succeeds (a DMA domain also needs its cookie). It gets a 36-bit table when the latch is set, which consumes the latch, and translates nothing. |
| Sysmmu.OfXlate | drivers/iommu/samsung-iommu-v9.c:850-895 | `of_xlate` succeeds exactly when the firmware data, client and device link steps all succeed. It then appends the unit to the client and sets the latch if the unit has a 36-bit address space; on failure the latch is kept. |
| Sysmmu.LatchIsOneShot | drivers/iommu/samsung-iommu-v9.c:239-241 | After a 36-bit unit's translation, the next domain gets a 36-bit table and the one after it a 32-bit table. |
| Sysmmu.DomainMap | drivers/iommu/samsung-iommu-v9.c:487-587 | Mapping through a domain updates its page table as `map` does and issues TLB writes only when a section replaced a second-level table; then it invalidates the section's range in every unit of the domain's group, as `iotlb_sync` does. |
| Sysmmu.DomainMapInvalidates | drivers/iommu/samsung-iommu-v9.c:499-520 | When a section replaces an empty second-level table, every selected VM of every serving unit in the group receives the range-start and range-end writes for that section. |
| Sysmmu.DomainUnmap | drivers/iommu/samsung-iommu-v9.c:589-655 | Unmapping through a domain returns the unmapped size, and the gather covers the range it unmapped. |
| Sysmmu.RuntimeSuspend | drivers/iommu/samsung-iommu-v9.c:1197-1209 | Runtime suspend disables an attached unit and marks it inactive, leaving other units alone. |
| Sysmmu.RuntimeResume | drivers/iommu/samsung-iommu-v9.c:1211-1223 | Runtime resume re-enables an attached unit and marks it active. |
| Sysmmu.SystemSuspend | drivers/iommu/samsung-iommu-v9.c:1225-1231 | System suspend runs the suspend callback only for a runtime-active unit. |
| Sysmmu.SystemResume | drivers/iommu/samsung-iommu-v9.c:1233-1239 | System resume runs the resume callback only for a runtime-active unit. |
| Sysmmu.RuntimeSuspendResume | drivers/iommu/samsung-iommu-v9.c:1197-1223 | A runtime suspend followed by a resume restores every unit. |
| Sysmmu.RuntimeSuspendResumeWrites | drivers/iommu/samsung-iommu-v9.c:1197-1223 | An attached unit's suspend-resume cycle logs exactly a disable sequence followed by an enable sequence. |
| Sysmmu.SystemSuspendResume | drivers/iommu/samsung-iommu-v9.c:1225-1239 | A system suspend followed by a resume restores every unit, and is a no-op for an inactive unit. |
| CStrings.StrNCaseEqualMeaning | drivers/thermal/samsung/gs101_tmu_v2.c:618 | The case-insensitive comparison of the first n characters holds exactly when both strings, cut to n, agree character by character after lowering. |
| PixelEm.VerifyProfileName | drivers/soc/google/vh/kernel/pixel_em/pixel_em.c:84-106 | A profile name is accepted exactly when it is non-empty and made only of ASCII letters, digits, `-` and `_`. |
| PixelEm.FindProfile | drivers/soc/google/vh/kernel/pixel_em/pixel_em.c:108-124 | The lookup returns the first profile with the given name, and none exactly when no profile has it. |
| PixelEm.UpdateInefficientPrevOpp | drivers/soc/google/vh/kernel/pixel_em/pixel_em.c:131-137 | Only the previous OPP's inefficient flag changes, and it is set exactly when that OPP costs at least as much as the updated one. |
| PixelEm.FindEntry | drivers/soc/google/vh/kernel/pixel_em/pixel_em.c:191-223 | The entry found is the first OPP with the requested frequency in the first cluster containing the CPU, and none exactly when no cluster has both. |
| PixelEm.UpdateEmEntry | drivers/soc/google/vh/kernel/pixel_em/pixel_em.c:191-223 | The update succeeds exactly when some cluster containing the CPU has the frequency. It writes the capacity, power and cost power/capacity there, re-marks the previous OPP, and changes no other OPP and no shape. |
| PixelEm.CopyCluster | drivers/soc/google/vh/kernel/pixel_em/pixel_em.c:268-290 | Copying a cluster takes the source's OPPs up to the first frequency mismatch and keeps the destination's OPPs after it. |
| PixelEm.UpdateProfile | drivers/soc/google/vh/kernel/pixel_em/pixel_em.c:258-293 | Updating a profile in place never changes its shape, and does nothing when the cluster counts differ. |
| PixelEm.UpdateProfileComplete | drivers/soc/google/vh/kernel/pixel_em/pixel_em.c:258-293 | When every cluster matches in CPUs and frequencies, the update copies the source's table exactly. |
| PixelEm.UpdateStops | drivers/soc/google/vh/kernel/pixel_em/pixel_em.c:265-290 | After the first cluster whose CPUs or frequencies disagree, no later cluster is updated. |
| PixelEm.UpdateProfileIdempotent | drivers/soc/google/vh/kernel/pixel_em/pixel_em.c:258-293 | Applying the same update twice gives the same profile as applying it once. |
| PixelEm.CheckProfileConsistency | drivers/soc/google/vh/kernel/pixel_em/pixel_em.c:296-323 | The check passes exactly when, in every cluster, frequency, capacity and power all strictly increase from each OPP to the next. |
| PixelEm.ConsistentOrdersAll | drivers/soc/google/vh/kernel/pixel_em/pixel_em.c:296-323 | In a consistent profile any earlier OPP of a cluster has lower frequency, capacity and power than any later one. |
| PixelEm.MaxCapacity | drivers/soc/google/vh/kernel/pixel_em/pixel_em.c:325-335 | The scaling reference is the largest top-OPP capacity over all clusters. |
| PixelEm.ScaleProfile | drivers/soc/google/vh/kernel/pixel_em/pixel_em.c:325-344 | Scaling rewrites every capacity as capacity·1024/max in 32-bit arithmetic and changes nothing else. |
| PixelEm.ScaleBounded | drivers/soc/google/vh/kernel/pixel_em/pixel_em.c:325-344 | Every scaled capacity of a consistent profile is at most 1024, even when `capacity * 1024` wraps at 32 bits. |
| PixelEm.ScaleTopIs1024 | drivers/soc/google/vh/kernel/pixel_em/pixel_em.c:325-344 | Without overflow, the cluster with the largest capacity ends at exactly 1024. |
| PixelEm.ScaleKeepsOrder | drivers/soc/google/vh/kernel/pixel_em/pixel_em.c:325-344 | Without overflow, scaling keeps the capacities of each cluster in non-decreasing order. |
| PixelEm.ClassifyCpuLine | drivers/soc/google/vh/kernel/pixel_em/pixel_em.c:382-384 | A line selects a CPU exactly when it starts with "cpu" in any letter case. |
| PixelEm.ParseLines | drivers/soc/google/vh/kernel/pixel_em/pixel_em.c:379-424 | The profile body parser fails only with EINVAL and never changes the profile's shape. |
| PixelEm.ParseLinesAcceptsIff | drivers/soc/google/vh/kernel/pixel_em/pixel_em.c:379-424 | The body is accepted exactly when every line is blank, a closing brace, a valid CPU selector, or a triple of non-zero numbers after some CPU was selected. |
| PixelEm.ParseLinesKeepsPositive | drivers/soc/google/vh/kernel/pixel_em/pixel_em.c:406-421 | Parsing keeps all capacities positive, because zero values are rejected. |
| PixelEm.ParsedProfile | drivers/soc/google/vh/kernel/pixel_em/pixel_em.c:426-431 | An accepted body, once scaled, keeps the profile's name and the default profile's cluster and OPP layout. |
| PixelEm.ParseProfile | drivers/soc/google/vh/kernel/pixel_em/pixel_em.c:346-457 | Parsing succeeds, returning the input length, exactly when the copy was allocated, the name is valid, the defaults exist, the body parses into a consistent profile, and the profile either exists or is published. A failed copy gives ENOMEM and a rejected name or body EINVAL. Every error leaves the list unchanged; this is the intended cleanup, since the driver's error exits free the profile unsafely (see Findings). A new name puts the scaled parsed profile at the head of the list; an existing one is updated in place from it. |
| PixelEm.Commit | drivers/soc/google/vh/kernel/pixel_em/pixel_em.c:433-446 | A new profile is added at the head of the list when publishing succeeds, and a publishing failure returns its error with the list unchanged (the intended cleanup: the driver frees the profile twice there, see Findings); an existing profile is updated in place and nothing else changes. |
| PixelEm.ParseKeepsNamesUnique | drivers/soc/google/vh/kernel/pixel_em/pixel_em.c:346-457 | Parsing keeps profile names unique and keeps every profile of another name. |
| PixelEm.ParseUpdatesExisting | drivers/soc/google/vh/kernel/pixel_em/pixel_em.c:433-446 | Re-parsing an existing profile whose layout matches replaces its table with the newly parsed and scaled one and changes no other profile. |
| PixelEm.StoreName | drivers/soc/google/vh/kernel/pixel_em/pixel_em.c:785-791 | The written name is the buffer up to the first newline or NUL. |
| PixelEm.StoreNameOfEcho | drivers/soc/google/vh/kernel/pixel_em/pixel_em.c:785-791 | A name written with or without a trailing newline is read back unchanged. |
| PixelEm.ExitOf | drivers/soc/google/vh/kernel/pixel_em/pixel_em.c:346-457 | Classifies how `parse_profile` leaves: the copy failure exactly when `kstrndup` failed, an error exit exactly when the parse returns a negative value (a publish failure returning the publishing error), and a publish or an update exactly when a successful parse met a new or an existing name. |
| PixelEm.EarlyErrorFreesUnset | drivers/soc/google/vh/kernel/pixel_em/pixel_em.c:346-366 | As written, a failed input copy or an invalid name is an error exit that passes the never-assigned `profile` to `pixel_em_free_profile` at the common exit. |
| PixelEm.PublishFailureFreesTwice | drivers/soc/google/vh/kernel/pixel_em/pixel_em.c:433-452 | As written, a valid new profile whose publishing fails is freed at the publish branch and again at the common exit. |
| PixelEm.FreesIntended | drivers/soc/google/vh/kernel/pixel_em/pixel_em.c:346-457 | In the intended cleanup every free receives NULL or the live profile, and the profile the call built is freed exactly once when the list does not keep it. |
| PixelEm.FreesDifferOnlyWhenUnsafe | drivers/soc/google/vh/kernel/pixel_em/pixel_em.c:346-457 | The written and the intended cleanups differ exactly on the copy failure, the invalid name and the publish failure, which are exactly the exits where the written one frees something that is not NULL or live. |
| PixelEm.ActiveProfile | drivers/soc/google/vh/kernel/pixel_em/pixel_em.c:49 | The active profile is the list's profile of the recorded name, and there is none exactly when no name is recorded or no profile has it. |
| PixelEm.ActiveProfileStore | drivers/soc/google/vh/kernel/pixel_em/pixel_em.c:772-803 | Selecting the active profile fails with ENOMEM when the name cannot be copied. Otherwise it succeeds, returning the buffer length, exactly when a profile of that name exists, and the first such profile becomes active; a miss returns EINVAL and leaves the active profile unchanged. |
| PixelEm.StoreSelects | drivers/soc/google/vh/kernel/pixel_em/pixel_em.c:772-803 | Echoing a profile's name selects exactly that profile when names are unique. |
| PixelEm.ParseUpdatesActive | drivers/soc/google/vh/kernel/pixel_em/pixel_em.c:433-446 | A successful parse of the active profile's name makes the active profile the old one updated with the parsed tables, because `update_profile` writes through the pointer `active_profile` holds. Any other parse leaves the active profile as it was. |
| Gs101Tmu.DivTrunc | drivers/thermal/samsung/gs101_tmu_v2.c:89-98 | C's division of a (possibly negative) temperature: the remainder left by the quotient has the dividend's sign and is smaller in magnitude than the divisor. |
| Gs101Tmu.DivTruncUnique | drivers/thermal/samsung/gs101_tmu_v2.c:89-98 | Those remainder bounds determine the quotient: any quotient meeting them is the truncating one. |
| Gs101Tmu.LimitStep | drivers/thermal/samsung/gs101_tmu_v2.c:143-157 | With a limit frequency configured, limiting starts when the temperature reaches the threshold and ends when it drops below the release threshold. Each change sends exactly one QoS request. |
| Gs101Tmu.LimitHoldsInBand | drivers/thermal/samsung/gs101_tmu_v2.c:143-157 | Inside the hysteresis band the limiting state never changes and nothing is requested. |
| Gs101Tmu.LimitNoChatter | drivers/thermal/samsung/gs101_tmu_v2.c:143-157 | With the release threshold at or below the threshold, a second reading at the same temperature does not flip the limit back. |
| Gs101Tmu.GetTemp | drivers/thermal/samsung/gs101_tmu_v2.c:122-183 | Reading fails with EINVAL for a missing or disabled sensor. Otherwise it reports ACPM's degrees in millidegrees, records them, applies the limit step and queues the hotplug work when enabled. |
| Gs101Tmu.TruncExact | drivers/thermal/samsung/gs101_tmu_v2.c:141-159 | Converting degrees to millidegrees and back is exact. |
| Gs101Tmu.ThrottleCpuHotplug | drivers/thermal/samsung/gs101_tmu_v2.c:259-289 | CPUs are taken offline when the temperature reaches the out threshold and brought back below the in threshold, with one hotplug request per change. |
| Gs101Tmu.HotplugNoChatter | drivers/thermal/samsung/gs101_tmu_v2.c:259-289 | With the in threshold at or below the out threshold, running the work again changes nothing. |
| Gs101Tmu.InitTrips | drivers/thermal/samsung/gs101_tmu_v2.c:73-103 | The trip loop succeeds exactly when every trip's type, temperature and hysteresis could be read, and otherwise reports the error of the highest-numbered failing trip, the first one the downward loop reaches. |
| Gs101Tmu.TmuInitialize | drivers/thermal/samsung/gs101_tmu_v2.c:61-108 | Initialisation sends thresholds, hysteresis and the interrupt-enable mask (eight entries each) to ACPM exactly when every trip was readable, and sends nothing otherwise. |
| Gs101Tmu.TmuInitializeTables | drivers/thermal/samsung/gs101_tmu_v2.c:73-103 | A non-passive trip programs its degree threshold and hysteresis as bytes and sets its interrupt bit; passive and missing trips leave zeros and a clear bit. |
| Gs101Tmu.TmuInitializeReportsHighest | drivers/thermal/samsung/gs101_tmu_v2.c:61-108 | When some trip cannot be read, initialisation returns the error of the highest-numbered such trip. |
| Gs101Tmu.SetEmulation | drivers/thermal/samsung/gs101_tmu_v2.c:207-228 | Emulation is accepted exactly when it is configured and the temperature is 0 (off) or at least one degree, and then sends the degree value as a byte. |
| Gs101Tmu.GetTrend | drivers/thermal/samsung/gs101_tmu_v2.c:185-204 | The trend is reported only when the trip temperature could be read, and is "raise full" exactly when the temperature has reached the trip. |
| Gs101Tmu.EctGetParam | drivers/thermal/samsung/gs101_tmu_v2.c:612-625 | The ECT lookup returns the value of the first parameter whose name matches case-insensitively within 25 characters, or -1 when none does. |
| Gs101Tmu.EctPrefixMatches | drivers/thermal/samsung/gs101_tmu_v2.c:612-625 | Two names agreeing case-insensitively in their first 25 characters look up the same value. |

## Left out

- Stream, QoS and VM-context configuration of a unit (`__sysmmu_init_config`, drivers/iommu/samsung-iommu-v9.c:144-194): kept as one opaque configuration write, because it programs registers from device-tree tables that the page-table and attach logic never read.
- Device-tree parsing, probe, interrupt handling, sysfs, device links and the kmem caches of the IOMMU driver: platform plumbing with no state the modelled operations depend on.
- `pgtable_flush` / DMA cache maintenance of table entries: a cache operation, invisible in a model without caches.
- Locking (`spin_lock_irqsave`, atomics, `smp_wmb`) and the lock-free race on second-level table allocation: every operation is modelled as running to completion alone.
- Freeing a domain (`domain_free`) and freeing second-level tables: memory reclamation only.
- The iommu core's gather bookkeeping (`iommu_iotlb_gather_add_page`): the core also syncs before adding a range that is disjoint from the gather or has a different page size, and it keeps the end inclusive (iova + size - 1). The model keeps one half-open interval and never syncs early. For page-aligned ranges both give the same register fields, because `__sysmmu_invalidate` programs the page of end - 1.
- samsung-iommu-v9.h is not part of this model; the layout constants (4 KiB, 64 KiB, 1 MiB, 256 entries, 4096/65536 first-level entries) are the hardware's documented values.
- SysmmuTable.Map: requires a supported page size and, for a 64 KiB page, a 64 KiB-aligned address, as the iommu core guarantees its callers; other sizes are not handled by the driver.
- SysmmuTable.Unmap: requires a 64 KiB-aligned address for requests of 64 KiB or more, as the iommu core picks page sizes aligned to the address.
- Sysmmu.AttachDevAsWritten: its contract states the early errors and, through Sysmmu.AttachDevLeaksReference, the leak; the successful path is stated on the corrected Sysmmu.AttachDev.
- Runtime-PM reference counting of the PM core itself: `rpmActive` is the unit's runtime-PM status, true for RPM_ACTIVE and false for RPM_SUSPENDED, so system sleep's `pm_runtime_status_suspended` (samsung-iommu-v9.c:1227 and 1235) is its negation.
- Sysmmu.DetachDrvdata and Sysmmu.AttachUnit: the `disable_depth` part of `pm_runtime_active` (samsung-iommu-v9.c:291 and 392) is not modelled; with runtime PM disabled the kernel reports the unit active whatever its status, while the model reads only `rpmActive`.
- Text scanning with `strsep`, `skip_spaces` and `sscanf`: profile text enters already split into lines with leading blanks removed and numbers decoded.
- Allocation failures inside `parse_profile` (`kstrndup`, the default profile): entered as the parse's `dupOk` and `defaults` parameters.
- Building the default profile from the kernel energy model (`generate_default_em_profile`, pixel_em.c:459-561) and the idle energy model (`update_idle_em_entry`, `parse_idle_em`, pixel_em.c:226-255 and 565-731): they read kernel energy-model structures this model does not contain.
- `apply_profile` (pixel_em.c:140-189) and the sysfs directory lifecycle of profiles: they install tables into the scheduler and kobject tree; publishing is a `Status` parameter.
- PixelEm.ScaleTopIs1024 and PixelEm.ScaleKeepsOrder: assume no overflow (NoScaleOverflow), because a wrap of capacity·1024 at 32 bits breaks both in the driver (capacities 4194303 and 4194304 scale out of order); realistic capacities never reach it. The wrap itself is modelled, and PixelEm.ScaleBounded holds with it.
- ACPM IPC, `pm_qos` and `cpuhp` calls of the TMU driver: represented as emitted events or writes, not performed.
- Gs101Tmu.GetTemp: requires the millidegree product `acpmTemp * 1000` to fit in `int`. The driver multiplies without a check (gs101_tmu_v2.c:141), and an out-of-range product would be signed overflow, which C leaves undefined.
- Gs101Tmu.TmuInitialize and Gs101Tmu.InitTrips: require at most 8 trips. The driver writes each trip into 8-entry byte arrays, one per hardware threshold slot, so a ninth trip would overrun them.
- PixelEm.ParseProfile and PixelEm.Commit: on the copy failure, the invalid name and the publish failure they state the intended result, the list unchanged and the built profile freed once. The driver's behaviour there is undefined (see Findings), so the model promises nothing about what it does.
- PixelEm.ParseProfile: requires the default profile to satisfy DefaultsOk (at least one cluster, at least one OPP each, positive capacities), as the kernel energy model it is built from provides; other defaults are not modelled.
- TMU interrupt work, debugfs, sysfs threshold attributes, suspend/resume counting and ECT table parsing apart from the parameter lookup: platform plumbing.

## Findings

| source | as written | input that shows it | evidently intended | confidence | as-written member | corrected member |
|---|---|---|---|---|---|---|
| drivers/iommu/samsung-iommu-v9.c:383-418 | `attached_count` is incremented before the page-table conflict check, and the rollback detaches only units `0..i-1`, so the conflicting unit keeps the extra reference | a device whose second SysMMU is already attached to another domain's page table: attach returns EINVAL, and that unit's count stays one higher | on failure every unit's reference count is as before the call | not executed | Sysmmu.AttachDevLeaksReference | Sysmmu.AttachDev |
| drivers/soc/google/vh/kernel/pixel_em/pixel_em.c:352-452 | `profile` has no initial value, and the `kstrndup` failure and the invalid-name check jump to `early_return`, which calls `pixel_em_free_profile(profile)` on it | a write whose first line is not a valid name, such as `bad name!` | `profile` starts as NULL, so the cleanup frees nothing | not executed | PixelEm.EarlyErrorFreesUnset | PixelEm.FreesIntended |
| drivers/soc/google/vh/kernel/pixel_em/pixel_em.c:433-452 | when publishing a new profile fails, the profile is freed at 436 and `res < 0` makes `early_return` free it again at 450 | a valid new profile written while the publishing `kzalloc` or sysfs file creation fails | the profile is freed once and the list stays as it was | not executed | PixelEm.PublishFailureFreesTwice | PixelEm.FreesIntended |
