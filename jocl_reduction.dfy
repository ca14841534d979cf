/**
 * The jocl orchestrator: ParallelReductionKernel's reduceArray,
 * reduceRecursively and reduceOnGpu over an OpenCL device.
 *
 * The device is a class whose state is the map of live buffers (handle to
 * contents) and a counter of the calls made to it. A call fails when its
 * position in that counter is in `faults`, which stands for whatever makes
 * a real call throw (out of resources, a lost device, a kernel the device
 * refuses); jocl's exceptions-enabled mode turns each failure into an
 * exception, here a `Failure`. Releasing a buffer is such a call too: a
 * release that fails leaves the buffer live, and the ghost set `stuck`
 * records it. A kernel launch runs OpenClKernels.LaunchKernel on the
 * buffers' contents.
 *
 * reduceRecursively as written loses the results buffer when the release of
 * its input fails after reduceOnGpu succeeded: `ReducePassAsWritten` and
 * `ReleaseFaultCounterexample` show it. `ReducePass` releases the results
 * buffer on that path too, and is what the rest of the model uses.
 */
module JoclReduction {
  import opened Sums
  import opened PowersOfTwo
  import opened Outcomes
  import opened Planner
  import opened Passes
  import opened OpenClKernels

  /** A device buffer: its contents and whether the host may read it back. */
  datatype Buffer = Buffer(contents: seq<int>, hostReadable: bool)

  /**
   * Ownership after a call that took over the buffers `taken`: every other
   * buffer that was live before is still live and unchanged, and every buffer
   * live afterwards that was taken over or is new is in `allowed` (for a
   * finished call: a buffer whose release failed).
   */
  predicate Disposed(before: map<nat, Buffer>, taken: set<nat>, after: map<nat, Buffer>, allowed: set<nat>)
  {
    && (forall h :: h in before && h !in taken ==> h in after && after[h] == before[h])
    && (forall h :: h in after && (h !in before || h in taken) ==> h in allowed)
  }

  /** Two calls in a row: what the first leaves live and the second does not take over stays allowed. */
  lemma DisposedChain(b0: map<nat, Buffer>, t0: set<nat>, b1: map<nat, Buffer>, a1: set<nat>,
                      t1: set<nat>, b2: map<nat, Buffer>, a2: set<nat>, taken: set<nat>, allowed: set<nat>)
    requires Disposed(b0, t0, b1, a1) && Disposed(b1, t1, b2, a2)
    requires forall h :: h in b0 ==> (h in taken <==> h in t0 || h in t1)
    requires (a1 - t1) + a2 <= allowed
    ensures Disposed(b0, taken, b2, allowed)
  {
    forall h | h in b2 && (h !in b0 || h in taken)
      ensures h in allowed
    {
      if h in b1 && h !in t1 {
        assert h in a1;
      }
    }
  }

  class Device {
    const maxDimensionSize: nat
    const simdWidth: nat
    /** What a read past the end of a group's local region returns. */
    const overrun: nat -> int
    /** The positions, in the call counter, of the device calls that fail. */
    const faults: set<nat>

    var calls: nat
    var buffers: map<nat, Buffer>
    var nextHandle: nat
    /** The handles whose release has failed. */
    ghost var stuck: set<nat>

    ghost predicate Valid()
      reads this
    {
      && (forall h :: h in buffers ==> h < nextHandle)
      && (forall h :: h in stuck ==> h < nextHandle)
    }

    /** None of the device calls numbered lo .. hi - 1 fails. */
    predicate NoFaults(lo: nat, hi: nat)
    {
      forall c :: lo <= c < hi ==> c !in faults
    }

    lemma NoFaultsSplit(lo: nat, mid: nat, hi: nat)
      requires lo <= mid <= hi
      ensures NoFaults(lo, hi) <==> NoFaults(lo, mid) && NoFaults(mid, hi)
    {
    }

    lemma NoFaultsOne(c: nat)
      ensures NoFaults(c, c + 1) <==> c !in faults
    {
    }

    constructor (maxDimensionSize: nat, simdWidth: nat, overrun: nat -> int, faults: set<nat>)
      ensures this.maxDimensionSize == maxDimensionSize && this.simdWidth == simdWidth
      ensures this.overrun == overrun && this.faults == faults
      ensures calls == 0 && buffers == map[] && nextHandle == 0 && stuck == {} && Valid()
    {
      this.maxDimensionSize := maxDimensionSize;
      this.simdWidth := simdWidth;
      this.overrun := overrun;
      this.faults := faults;
      calls := 0;
      buffers := map[];
      nextHandle := 0;
      stuck := {};
    }

    /**
     * clCreateBuffer: a buffer of zero elements is CL_INVALID_BUFFER_SIZE;
     * otherwise, unless the call faults, a fresh live handle.
     */
    method CreateBuffer(contents: seq<int>, hostReadable: bool) returns (r: Result<nat>)
      requires Valid()
      modifies this
      ensures Valid() && calls == old(calls) + 1 && stuck == old(stuck)
      ensures r.Success? <==> |contents| >= 1 && old(calls) !in faults
      ensures r.Failure? ==> buffers == old(buffers) && nextHandle == old(nextHandle)
      ensures r.Failure? ==> r.error == if |contents| == 0 then InvalidBufferSize else DeviceFault
      ensures r.Success? ==> r.value == old(nextHandle) && nextHandle == old(nextHandle) + 1
      ensures r.Success? ==> r.value !in old(buffers) && buffers == old(buffers)[r.value := Buffer(contents, hostReadable)]
    {
      calls := calls + 1;
      if |contents| == 0 {
        return Failure(InvalidBufferSize);
      }
      if calls - 1 in faults {
        return Failure(DeviceFault);
      }
      r := Success(nextHandle);
      buffers := buffers[nextHandle := Buffer(contents, hostReadable)];
      nextHandle := nextHandle + 1;
    }

    /**
     * clReleaseMemObject: the handle must be live. Unless the call fails it
     * stops being live; a failed release leaves it live and in `stuck`.
     */
    method ReleaseMemObject(handle: nat) returns (r: Result<()>)
      requires Valid() && handle in buffers
      modifies this
      ensures Valid() && calls == old(calls) + 1 && nextHandle == old(nextHandle)
      ensures r.Success? <==> old(calls) !in faults
      ensures r.Success? ==> buffers == old(buffers) - {handle} && stuck == old(stuck)
      ensures r.Failure? ==> r.error == DeviceFault && buffers == old(buffers) && stuck == old(stuck) + {handle}
      ensures Disposed(old(buffers), {handle}, buffers, stuck)
    {
      calls := calls + 1;
      if calls - 1 in faults {
        stuck := stuck + {handle};
        return Failure(DeviceFault);
      }
      buffers := buffers - {handle};
      r := Success(());
    }

    /**
     * clSetKernelArg for the four arguments and clEnqueueNDRangeKernel with
     * numberOfGroups * groupSize work-items in groups of groupSize: the kernel
     * reads `input` and overwrites `results`; no other buffer changes.
     */
    method EnqueueReduction(mode: SyncMode, input: nat, inputLength: nat, results: nat, numberOfGroups: nat, groupSize: nat)
      returns (r: Result<()>)
      requires Valid() && input in buffers && results in buffers && input != results
      requires inputLength <= |buffers[input].contents| && |buffers[results].contents| == numberOfGroups
      requires groupSize >= 1
      modifies this
      ensures Valid() && calls == old(calls) + 1 && nextHandle == old(nextHandle) && stuck == old(stuck)
      ensures r.Success? <==> old(calls) !in faults
      ensures r.Failure? ==> r.error == DeviceFault && buffers == old(buffers)
      ensures r.Success? ==> results in buffers && buffers == old(buffers)[results := buffers[results]]
      ensures r.Success? ==> |buffers[results].contents| == numberOfGroups
                             && buffers[results].hostReadable == old(buffers[results].hostReadable)
      ensures r.Success? && IsPow2(groupSize) && groupSize * (numberOfGroups - 1) < inputLength
              && (mode == Hybrid ==> simdWidth >= 1) ==>
                buffers[results].contents == PassResult(old(buffers[input].contents)[..inputLength], groupSize, numberOfGroups)
    {
      calls := calls + 1;
      if calls - 1 in faults {
        return Failure(DeviceFault);
      }
      var written := LaunchKernel(mode, buffers[input].contents, inputLength, buffers[results].contents, groupSize,
                                  simdWidth, overrun);
      buffers := buffers[results := Buffer(written, buffers[results].hostReadable)];
      r := Success(());
    }

    /**
     * clEnqueueReadBuffer of the first element: a buffer created without host
     * access cannot be read (CL_INVALID_OPERATION).
     */
    method ReadBuffer(handle: nat) returns (r: Result<int>)
      requires Valid() && handle in buffers && |buffers[handle].contents| >= 1
      modifies this
      ensures Valid() && calls == old(calls) + 1 && buffers == old(buffers)
      ensures nextHandle == old(nextHandle) && stuck == old(stuck)
      ensures r == if !buffers[handle].hostReadable then Failure(HostAccessDenied)
                   else if old(calls) in faults then Failure(DeviceFault)
                   else Success(buffers[handle].contents[0])
    {
      calls := calls + 1;
      if !buffers[handle].hostReadable {
        return Failure(HostAccessDenied);
      }
      if calls - 1 in faults {
        return Failure(DeviceFault);
      }
      r := Success(buffers[handle].contents[0]);
    }
  }

  class ParallelReductionKernel {
    const device: Device
    const syncMode: SyncMode
    const maxGroupSize: nat

    /**
     * The constructor queries the kernel's own work-group limit and then
     * overwrites it: the effective limit is the device's maximum dimension size.
     */
    constructor (device: Device, syncMode: SyncMode)
      ensures this.device == device && this.syncMode == syncMode
      ensures maxGroupSize == device.maxDimensionSize
    {
      this.device := device;
      this.syncMode := syncMode;
      this.maxGroupSize := device.maxDimensionSize;
    }

    /** The width limit of every pass: the SIMD width in SIMD mode, maxGroupSize otherwise. */
    function Width(): nat
    {
      PassWidth(syncMode, maxGroupSize, device.simdWidth)
    }

    /**
     * reduceOnGpu: allocates `numberOfGroups` result slots, host-readable only
     * when there is a single group, and launches the kernel. On failure the
     * results buffer is released before the error propagates (a failing
     * release throws in its place); on success the caller owns it.
     */
    method ReduceOnGpu(input: nat, inputLength: nat, numberOfGroups: nat, groupSize: nat) returns (r: Result<nat>)
      requires device.Valid() && input in device.buffers && inputLength <= |device.buffers[input].contents|
      requires numberOfGroups >= 1 && groupSize >= 1
      modifies device
      ensures device.Valid() && device.calls >= old(device.calls) && old(device.stuck) <= device.stuck
      ensures r.Success? <==> device.NoFaults(old(device.calls), device.calls)
      ensures device.NoFaults(old(device.calls), old(device.calls) + 2) ==> r.Success?
      ensures r.Failure? ==> r.error == DeviceFault && Disposed(old(device.buffers), {}, device.buffers, device.stuck)
      ensures r.Success? ==> r.value == old(device.nextHandle) && device.calls == old(device.calls) + 2
                             && device.stuck == old(device.stuck)
      ensures r.Success? ==> r.value !in old(device.buffers) && r.value in device.buffers
                             && device.buffers - {r.value} == old(device.buffers)
      ensures r.Success? ==> |device.buffers[r.value].contents| == numberOfGroups
                             && device.buffers[r.value].hostReadable == (numberOfGroups == 1)
      ensures r.Success? && IsPow2(groupSize) && groupSize * (numberOfGroups - 1) < inputLength
              && (syncMode == Hybrid ==> device.simdWidth >= 1) ==>
                device.buffers[r.value].contents
                == PassResult(old(device.buffers[input].contents)[..inputLength], groupSize, numberOfGroups)
    {
      var hostReadable := numberOfGroups == 1;
      var created := device.CreateBuffer(seq(numberOfGroups, _ => 0), hostReadable);
      if created.Failure? {
        return Failure(created.error);
      }
      var results := created.value;
      ghost var withResults := device.buffers;
      var launched := device.EnqueueReduction(syncMode, input, inputLength, results, numberOfGroups, groupSize);
      if launched.Failure? {
        var released := device.ReleaseMemObject(results);
        DisposedChain(old(device.buffers), {}, withResults, old(device.stuck) + {results},
                      {results}, device.buffers, device.stuck, {}, device.stuck);
        return Failure(launched.error);
      }
      r := Success(results);
    }

    /**
     * The first half of reduceRecursively AS WRITTEN: plans a pass, reduces on
     * the GPU and releases `input` in a `finally`. When reduceOnGpu succeeded
     * and that release fails, the exception leaves and nothing releases the
     * results buffer reduceOnGpu handed over.
     */
    method ReducePassAsWritten(input: nat, inputLength: nat) returns (r: Result<nat>, numberOfGroups: nat)
      requires device.Valid() && input in device.buffers && |device.buffers[input].contents| == inputLength
      requires 2 <= Width() <= 0x4000_0000 && IsPow2(Width()) && device.simdWidth >= 1
      modifies device
      ensures device.Valid() && device.calls >= old(device.calls)
      ensures inputLength >= 1 ==> (r.Success? <==> device.NoFaults(old(device.calls), device.calls))
      ensures r.Success? ==> r.value !in old(device.buffers) && r.value in device.buffers
                             && device.buffers - {r.value} == old(device.buffers) - {input}
      ensures inputLength >= 1 && device.NoFaults(old(device.calls), old(device.calls) + 2)
              && old(device.calls) + 2 in device.faults ==>
                r.Failure? && old(device.nextHandle) !in old(device.buffers)
                && old(device.nextHandle) in device.buffers && old(device.nextHandle) !in device.stuck
    {
      var width := PassWidth(syncMode, maxGroupSize, device.simdWidth);
      var plan := PlanPass(inputLength, width, true);
      PlanCoverage(inputLength, width, true);
      if plan.Failure? {
        var released := device.ReleaseMemObject(input);
        if released.Failure? {
          return Failure(released.error), 0;
        }
        return Failure(plan.error), 0;
      }
      var groupSize := plan.value.groupSize;
      numberOfGroups := plan.value.numberOfGroups;
      var results := ReduceOnGpu(input, inputLength, numberOfGroups, groupSize);
      ghost var withResults := device.buffers;
      ghost var middle := device.calls;
      var released := device.ReleaseMemObject(input);
      device.NoFaultsSplit(old(device.calls), middle, device.calls);
      device.NoFaultsOne(middle);
      if results.Failure? {
        return Failure(results.error), numberOfGroups;
      }
      if released.Failure? {
        return Failure(released.error), numberOfGroups;
      }
      ReleaseInputThenResults(old(device.buffers), withResults, input, results.value);
      r := results;
    }

    /**
     * Lines 148-151 of reduceRecursively with the leak closed: reduces on the
     * GPU and releases `input` whatever happened; when only that release
     * fails, the results buffer is released before the error propagates, as
     * reduceOnGpu does on its own failure.
     */
    method ReduceThenRelease(input: nat, inputLength: nat, numberOfGroups: nat, groupSize: nat) returns (r: Result<nat>)
      requires device.Valid() && input in device.buffers && |device.buffers[input].contents| == inputLength
      requires numberOfGroups >= 1 && IsPow2(groupSize) && groupSize * (numberOfGroups - 1) < inputLength
      requires syncMode == Hybrid ==> device.simdWidth >= 1
      modifies device
      ensures device.Valid() && device.calls >= old(device.calls) && old(device.stuck) <= device.stuck
      ensures r.Success? <==> device.NoFaults(old(device.calls), device.calls)
      ensures r.Failure? ==> r.error == DeviceFault && Disposed(old(device.buffers), {input}, device.buffers, device.stuck)
      ensures r.Success? ==> r.value !in old(device.buffers) && r.value in device.buffers
                             && device.buffers - {r.value} == old(device.buffers) - {input}
                             && device.stuck == old(device.stuck) && device.calls == old(device.calls) + 3
      ensures r.Success? ==> device.buffers[r.value].contents
                             == PassResult(old(device.buffers[input].contents), groupSize, numberOfGroups)
                             && device.buffers[r.value].hostReadable == (numberOfGroups == 1)
    {
      ghost var contents := device.buffers[input].contents;
      assert contents[..inputLength] == contents;
      var results := ReduceOnGpu(input, inputLength, numberOfGroups, groupSize);
      ghost var withResults := device.buffers;
      ghost var stuckBefore := device.stuck;
      ghost var middle := device.calls;
      var released := device.ReleaseMemObject(input);
      device.NoFaultsSplit(old(device.calls), middle, device.calls);
      device.NoFaultsOne(middle);
      if results.Failure? {
        DisposedChain(old(device.buffers), {}, withResults, stuckBefore,
                      {input}, device.buffers, device.stuck, {input}, device.stuck);
        return Failure(results.error);
      }
      if released.Failure? {
        ghost var leaking := device.buffers;
        ghost var last := device.calls;
        var releasedResults := device.ReleaseMemObject(results.value);
        device.NoFaultsSplit(old(device.calls), last, device.calls);
        DisposedChain(old(device.buffers), {input}, leaking, device.stuck + {results.value},
                      {results.value}, device.buffers, device.stuck, {input}, device.stuck);
        return Failure(released.error);
      }
      ReleaseInputThenResults(old(device.buffers), withResults, input, results.value);
      r := results;
    }

    /**
     * The first half of reduceRecursively with the leak closed: plans a pass
     * and reduces it on the GPU, releasing `input` in every case. On success
     * a new buffer holds the partial sums of the pass, whose total is the
     * sum of the input's contents; it is host-readable exactly when it holds
     * a single value. On failure no buffer is left behind except one whose
     * release failed.
     */
    method ReducePass(input: nat, inputLength: nat) returns (r: Result<nat>, numberOfGroups: nat)
      requires device.Valid() && input in device.buffers && |device.buffers[input].contents| == inputLength
      requires 2 <= Width() <= 0x4000_0000 && IsPow2(Width()) && device.simdWidth >= 1
      modifies device
      ensures device.Valid() && device.calls >= old(device.calls) && old(device.stuck) <= device.stuck
      ensures inputLength == 0 ==>
                r == Failure(if device.NoFaults(old(device.calls), device.calls) then DivisionByZero else DeviceFault)
      ensures inputLength >= 1 ==> (r.Success? <==> device.NoFaults(old(device.calls), device.calls))
      ensures r.Failure? ==> (r.error == DivisionByZero || r.error == DeviceFault)
                             && Disposed(old(device.buffers), {input}, device.buffers, device.stuck)
      ensures r.Success? ==> r.value !in old(device.buffers) && r.value in device.buffers
                             && device.buffers - {r.value} == old(device.buffers) - {input}
                             && device.stuck == old(device.stuck) && device.calls == old(device.calls) + 3
      ensures r.Success? ==> |device.buffers[r.value].contents| == numberOfGroups >= 1
                             && device.buffers[r.value].hostReadable == (numberOfGroups == 1)
                             && (numberOfGroups > 1 ==> numberOfGroups < inputLength)
      ensures r.Success? ==> Sum(device.buffers[r.value].contents) == Sum(old(device.buffers[input].contents))
    {
      var width := PassWidth(syncMode, maxGroupSize, device.simdWidth);
      var plan := PlanPass(inputLength, width, true);
      PlanCoverage(inputLength, width, true);
      if plan.Failure? {
        var released := device.ReleaseMemObject(input);
        device.NoFaultsOne(old(device.calls));
        if released.Failure? {
          return Failure(released.error), 0;
        }
        return Failure(plan.error), 0;
      }
      var groupSize := plan.value.groupSize;
      numberOfGroups := plan.value.numberOfGroups;
      PowerOfTwoGroups(inputLength, width);
      ghost var contents := device.buffers[input].contents;
      r := ReduceThenRelease(input, inputLength, numberOfGroups, groupSize);
      if r.Success? {
        PassPreservesSum(contents, groupSize, numberOfGroups);
        if numberOfGroups > 1 {
          PlanShrinks(inputLength, width, true);
        }
      }
    }

    /**
     * reduceRecursively: one pass, then a recursive call on the results or
     * the read-back of the single result, which is released afterwards. Every
     * buffer it creates is released before it returns, and `input` too,
     * except a buffer whose release failed; on success the value is the sum
     * of the input's contents. With at least one element it fails exactly when
     * a device call fails.
     */
    method ReduceRecursively(input: nat, inputLength: nat) returns (r: Result<int>)
      requires device.Valid() && input in device.buffers && |device.buffers[input].contents| == inputLength
      requires 2 <= Width() <= 0x4000_0000 && IsPow2(Width()) && device.simdWidth >= 1
      modifies device
      ensures device.Valid() && device.calls >= old(device.calls) && old(device.stuck) <= device.stuck
      ensures Disposed(old(device.buffers), {input}, device.buffers, device.stuck)
      ensures r.Success? ==> device.buffers == old(device.buffers) - {input}
      ensures r.Success? ==> r.value == Sum(old(device.buffers[input].contents))
      ensures inputLength == 0 ==>
                r == Failure(if device.NoFaults(old(device.calls), device.calls) then DivisionByZero else DeviceFault)
      ensures inputLength >= 1 ==> (r.Success? <==> device.NoFaults(old(device.calls), device.calls))
      ensures r.Failure? ==> r.error == DivisionByZero || r.error == DeviceFault
      decreases inputLength
    {
      var pass, numberOfGroups := ReducePass(input, inputLength);
      if pass.Failure? {
        return Failure(pass.error);
      }
      var handle := pass.value;
      ghost var middle := device.calls;
      ghost var passed := device.buffers;
      ghost var stuckBefore := device.stuck;
      if numberOfGroups > 1 {
        r := ReduceRecursively(handle, numberOfGroups);
      } else {
        ghost var partial := device.buffers[handle].contents;
        r := ReadSingleResult(handle);
        if r.Success? {
          SingleSum(partial);
        }
      }
      device.NoFaultsSplit(old(device.calls), middle, device.calls);
      HandOver(old(device.buffers), {input}, passed, handle, stuckBefore, device.buffers, device.stuck);
    }

    /**
     * The last step of reduceRecursively: reads the single result back and
     * releases its buffer in a `finally`; a failing release throws in place
     * of whatever the read did.
     */
    method ReadSingleResult(handle: nat) returns (r: Result<int>)
      requires device.Valid() && handle in device.buffers && device.buffers[handle].hostReadable
      requires |device.buffers[handle].contents| == 1
      modifies device
      ensures device.Valid() && device.calls >= old(device.calls) && old(device.stuck) <= device.stuck
      ensures Disposed(old(device.buffers), {handle}, device.buffers, device.stuck)
      ensures r.Success? ==> device.buffers == old(device.buffers) - {handle}
      ensures r.Success? <==> device.NoFaults(old(device.calls), device.calls)
      ensures r.Success? ==> r.value == old(device.buffers[handle].contents)[0]
      ensures r.Failure? ==> r.error == DeviceFault
    {
      var read := device.ReadBuffer(handle);
      var released := device.ReleaseMemObject(handle);
      device.NoFaultsSplit(old(device.calls), old(device.calls) + 1, device.calls);
      device.NoFaultsOne(old(device.calls));
      device.NoFaultsOne(old(device.calls) + 1);
      if released.Failure? {
        return Failure(released.error);
      }
      r := read;
    }

    /**
     * reduceArray: copies the host array into a new device-only buffer and
     * reduces it. No buffer outlives the call except one whose release
     * failed; an empty array is refused by the buffer allocation.
     */
    method ReduceArray(input: seq<int>) returns (r: Result<int>)
      requires device.Valid() && 2 <= Width() <= 0x4000_0000 && IsPow2(Width()) && device.simdWidth >= 1
      modifies device
      ensures device.Valid() && old(device.stuck) <= device.stuck
      ensures Disposed(old(device.buffers), {}, device.buffers, device.stuck)
      ensures r.Success? ==> device.buffers == old(device.buffers)
      ensures r.Success? ==> r.value == Sum(input)
      ensures |input| == 0 ==> r == Failure(InvalidBufferSize)
      ensures |input| >= 1 ==> (r.Success? <==> device.NoFaults(old(device.calls), device.calls))
    {
      var created := device.CreateBuffer(input, false);
      if created.Failure? {
        device.NoFaultsOne(old(device.calls));
        return Failure(created.error);
      }
      ghost var middle := device.calls;
      ghost var withInput := device.buffers;
      r := ReduceRecursively(created.value, |input|);
      device.NoFaultsSplit(old(device.calls), middle, device.calls);
      device.NoFaultsOne(old(device.calls));
      HandOver(old(device.buffers), {}, withInput, created.value, old(device.stuck), device.buffers, device.stuck);
    }
  }

  /** A one-element sequence sums to its element. */
  lemma SingleSum(s: seq<int>)
    requires |s| == 1
    ensures Sum(s) == s[0]
  {
    assert s[1..] == [];
  }

  /**
   * Releasing the input while the results buffer is alive, then the results
   * buffer, leaves the buffers that were there before minus the input.
   */
  lemma ReleaseInputThenResults(before: map<nat, Buffer>, during: map<nat, Buffer>, input: nat, results: nat)
    requires during - {results} == before
    ensures (during - {input}) - {results} == before - {input}
  {
    assert (during - {input}) - {results} == (during - {results}) - {input};
  }

  /**
   * A call that left exactly one new buffer `handle` besides the buffers it
   * took over, followed by a call that takes `handle` over: together they
   * dispose of what the first took over.
   */
  lemma HandOver(b0: map<nat, Buffer>, taken: set<nat>, b1: map<nat, Buffer>, handle: nat, s1: set<nat>,
                 b2: map<nat, Buffer>, s2: set<nat>)
    requires handle !in b0 && handle in b1 && b1 - {handle} == b0 - taken
    requires Disposed(b1, {handle}, b2, s2) && s1 <= s2
    ensures Disposed(b0, taken, b2, s2)
  {
    forall h | h in b0 && h !in taken
      ensures h in b1 && b1[h] == b0[h]
    {
      assert h in b0 - taken;
    }
    forall h | h in b1 && h != handle
      ensures h in b0 && h !in taken
    {
      assert h in b1 - {handle};
    }
    DisposedChain(b0, taken, b1, {handle}, {handle}, b2, s2, taken, s2);
  }

  /**
   * Input [1, 2, 3] on a device whose fourth call fails: the input buffer is
   * call 0, reduceOnGpu makes calls 1 and 2, and the release of the input in
   * the `finally` is call 3. As written the results buffer (handle 1) stays
   * live although nothing tried to release it.
   */
  method ReleaseFaultCounterexample() returns (device: Device)
    ensures !Disposed(map[0 := Buffer([1, 2, 3], false)], {0}, device.buffers, device.stuck)
  {
    device := new Device(4, 4, _ => 0, {3});
    var kernel := new ParallelReductionKernel(device, Barrier);
    assert kernel.Width() == 4 && IsPow2(4) by {
      assert IsPow2(2);
    }
    var created := device.CreateBuffer([1, 2, 3], false);
    assert device.buffers == map[0 := Buffer([1, 2, 3], false)] && device.calls == 1;
    var r, n := kernel.ReducePassAsWritten(0, 3);
    assert 1 in device.buffers && 1 !in device.stuck;
  }

  /**
   * The same input and fault with the leak closed: the pass fails, and the
   * only buffer left is the input, whose own release failed.
   */
  method ReleaseFaultClosed() returns (device: Device)
    ensures Disposed(map[0 := Buffer([1, 2, 3], false)], {0}, device.buffers, device.stuck)
  {
    device := new Device(4, 4, _ => 0, {3});
    var kernel := new ParallelReductionKernel(device, Barrier);
    assert kernel.Width() == 4 && IsPow2(4) by {
      assert IsPow2(2);
    }
    var created := device.CreateBuffer([1, 2, 3], false);
    assert device.buffers == map[0 := Buffer([1, 2, 3], false)] && device.calls == 1;
    var r, n := kernel.ReducePass(0, 3);
  }
}
