# Frame sequencing and reordering in the video-filter distributor

This project models the `Distributor` class of `distributor.py` in Dafny. The
class hands webcam frames to a pool of diffusion workers and reassembles the
processed frames for display. Four mechanisms are modelled, each with its own
proofs:

- **Ingest.** `add_frame_for_distribution` stamps each captured frame with the
  current value of `frame_index_counter`, then increments it. It then puts the frame in a queue of
  capacity 10. When the queue is full, the oldest entry is evicted first.
- **Send once.** A READY request from a worker is answered with the current
  frame only when that frame's index is above `last_frame_sent`. The answered
  index then becomes `last_frame_sent`. A ghost log of every answered index is
  kept strictly increasing, so no index is handed out twice.
- **Collect.** A processed frame whose index is above the counter is dropped.
  Any other processed frame is stored under its index in `received_frames`. The
  buffer is then cleaned: entries behind the display cursor go first. If more
  than 50 entries remain, the smallest keys go next.
- **Display.** `update_display_frame` keeps the cursor `frame_delay` frames
  behind the newest processed frame. `get_frame_to_display` returns the frame
  under the cursor. If that frame is missing, it returns the frame at the
  nearest key; on a tie the smaller key wins.

The class is `Distribution.Distributor`. Its fields are the Python attributes.
Each socket-loop iteration becomes one atomic method: `DistributeStep`, which
calls `DequeueToCurrent` and then `HandleReady`, and `ReceiveProcessed`.
`Valid()` is the object invariant, built from three parts:

- queued indices were all issued, in increasing order, and are newer than the
  current frame;
- the log of answered indices is increasing and ends at `lastFrameSent`;
- the buffer holds at most 50 entries and none newer than
  `latestReceivedFrame`, which never exceeds the counter, and the cursor is
  never negative.

Module `FrameBuffer` holds the specification of the buffer cleanup
(`Cleaned`, built from `AtOrAfter` and `SmallestKeys`, the `n` smallest keys of
a set) and of the nearest-frame choice (`IsNearest`), with the lemmas about
them.

Behaviour the model follows as the code is written:

- `cleanup_old_frames` has two deletion passes. The first collects the keys
  behind the cursor (`StaleKeys`) and deletes them (`DeleteKeys`). The second
  runs only when more than 50 entries remain. It takes the excess count of
  smallest keys in ascending order (`OldestKeys`, the slice of the sorted keys)
  and deletes them. Python iterates the dictionary in insertion order. The
  model picks an arbitrary key instead, which does not change the result.
- The two inner branches of `update_display_frame` (lines 338-345) do the same
  thing. When enough frames have arrived, the cursor moves to
  `latest_received_frame - frame_delay`, even if that is backwards.
  `CursorCanMoveBack` gives an example.
- The READY reply sends the prompt as a string. If a frame was queued without a
  prompt, sending `None` raises. The loop's generic handler catches the error,
  so nothing is recorded as sent. `HandleReady` replies only when the prompt is
  present. `ffmpeg_app.py:150` queues frames without a prompt.
- An index equal to `frame_index_counter` passes the guard at line 269 and is
  stored. No frame has been given that index yet.
- `get_frame_stats` reports the capture counter under the name
  `total_frames_processed`.
- `frame_delay` is any integer, as `--frame-delay` accepts. Properties that
  need a non-negative delay say so.

The repository's shell launchers and service installers are not part of this
model. Neither are the capture and display applications, nor the worker
programs.

## Model

| member | source | states |
|---|---|---|
| `Distribution.Distributor.constructor` | distributor.py:9-24 | Initial state: empty queue, counter 0, `last_frame_sent` -1, empty buffer, cursor 0, latest -1, the given delay; the invariant holds |
| `Distribution.Distributor.AddFrameForDistribution` | distributor.py:173-204 | The frame gets the old counter value; the counter rises by exactly one; the queue becomes `Enqueued` of the old queue; the queue stays within 10 entries and ends with the new frame |
| `Distribution.Enqueued` | distributor.py:189-200 | The queue after a put grows by one when there is room and stays at 10 when full, never exceeds 10, and ends with the new frame |
| `Distribution.EnqueuedKeepsNewest` | distributor.py:189-200 | The queue after a put is the newest entries of the old queue plus the frame, in order; only the oldest entry is ever evicted |
| `Distribution.TailKeepsOrder` | distributor.py:197-198 | Evicting the head with `get_nowait` keeps the remaining indices ordered and within their bounds |
| `Distribution.AppendKeepsOrder` | distributor.py:189-200 | Putting a frame newer than every queued one keeps the indices strictly increasing |
| `Distribution.EnqueuedKeepsOrder` | distributor.py:179-200 | A frame with an index above every queued one keeps the queued indices strictly increasing and within their bounds |
| `Distribution.Distributor.DequeueToCurrent` | distributor.py:210-223 | The oldest queued frame becomes the current frame and leaves the queue; with an empty queue nothing changes; the current index strictly grows |
| `Distribution.Distributor.HandleReady` | distributor.py:231-247 | A reply is sent if and only if a current frame exists, its index exceeds the old `last_frame_sent`, it has a prompt and the socket accepts it; then `last_frame_sent` is that index, which was never sent before; otherwise nothing changes |
| `Distribution.IncreasingIsStrictlySorted` | distributor.py:235-244 | The log of sent indices, increasing step by step, is strictly sorted, so no index occurs twice |
| `Distribution.ReadyTwiceAnswersOnce` | distributor.py:233-244 | From any valid state, of two READY requests with no dequeue between them at most one is answered; after an answered first one `last_frame_sent` is its index and the second gets no reply |
| `Distribution.DequeuedFrameIsAnswered` | distributor.py:210-247 | From any valid state with a queued head that has a prompt, a READY step with an accepting socket always answers with that head's index, prompt and bytes |
| `Distribution.ReadyTwiceSendsOnce` | distributor.py:233-244 | Scenario: with frame 0 current, the first READY gets frame 0 with its prompt and the second gets no reply |
| `Distribution.Distributor.DistributeStep` | distributor.py:206-254 | One loop iteration: dequeue (a non-empty queue's head, with its bytes, index and prompt, becomes the current frame), then reply if and only if the message is READY, the new current frame's index exceeds the old `last_frame_sent`, it has a prompt and the socket accepts; the reply carries that frame's index, prompt and bytes, and its index becomes `last_frame_sent` |
| `Distribution.Distributor.ReceiveProcessed` | distributor.py:269-289 | Accepted exactly when the index is at most the counter; a rejected frame changes nothing; an accepted one makes latest the maximum of old latest and the index, and the buffer becomes `Cleaned` of the old buffer with the frame stored; the invariant (at most 50 entries) is kept |
| `Distribution.Distributor.StaleKeys` | distributor.py:300-303 | Exactly the keys below the display cursor |
| `Distribution.Distributor.CleanupOldFrames` | distributor.py:298-314 | The buffer becomes `Cleaned` of the old buffer at the current cursor |
| `FrameBuffer.DeleteStale` | distributor.py:305-306 | Deleting the collected stale keys leaves exactly the entries at or after the cursor |
| `FrameBuffer.CleanedSpec` | distributor.py:298-314 | After cleanup no key is below the cursor, every entry is unchanged, the size is the number of entries at or after the cursor capped at 50, and every evicted entry at or after the cursor is below every kept key |
| `Distribution.Distributor.DeleteKeys` | distributor.py:305-306 | Given keys all present in the buffer (`del` raises otherwise), after the loop the buffer is the old buffer without exactly those keys; the other entries are unchanged |
| `Distribution.Distributor.OldestKeys` | distributor.py:311-312 | The keys taken are exactly the `n` smallest keys of the buffer (all of them when it has fewer) |
| `FrameBuffer.SmallestKeysSubset` | distributor.py:311-312 | The slice of the sorted keys contains only keys of the buffer |
| `FrameBuffer.SmallestKeysSize` | distributor.py:309-312 | The slice holds n keys, or every key when there are fewer, so deleting the excess leaves exactly 50 |
| `FrameBuffer.SmallestKeysBelowRest` | distributor.py:311-312 | Every key in the slice is below every key left out of it |
| `FrameBuffer.SmallestKeysStep` | distributor.py:311 | The smallest keys are the least key followed by the smallest keys of the rest, as sorted order lists them |
| `FrameBuffer.CleanedBounded` | distributor.py:308-314 | After cleanup the buffer holds at most 50 entries and no key newer than the newest before |
| `Distribution.ReceiveKeepsBufferValid` | distributor.py:279-289 | Storing an index no larger than the counter, raising the latest index to it and cleaning up keeps the buffer invariant |
| `FrameBuffer.NearestKey` | distributor.py:325-327 | `min` over the sorted keys by distance: returns a key no other key is nearer to the cursor than, the smaller one on a tie |
| `FrameBuffer.NearestUnique` | distributor.py:327 | The nearest key with the smaller-key tie rule is unique, so the fallback lookup is determined |
| `Distribution.Distributor.GetFrameToDisplay` | distributor.py:316-329 | None exactly when the buffer is empty; the frame under the cursor when present; otherwise the frame at the nearest key; state unchanged |
| `Distribution.DisplayTarget` | distributor.py:331-351 | The cursor only moves to latest minus delay or to latest, and stays put only when fewer than delay frames arrived; afterwards a cursor that was non-negative stays non-negative and trails latest by at most max(delay, 0), and with a non-negative delay a cursor not ahead of max(latest, 0) stays not ahead of it |
| `Distribution.CursorCanMoveBack` | distributor.py:333-350 | The cursor is not monotonic: with delay 5 it goes to 4 and then back to 0 |
| `Distribution.Distributor.UpdateDisplayFrame` | distributor.py:331-351 | Returns true and moves the cursor to latest minus delay when latest is at least the delay; otherwise moves it to a positive latest it trails; otherwise returns false with the cursor unchanged; the invariant is kept |
| `Distribution.Distributor.GetFrameStats` | distributor.py:353-361 | The statistics report a buffer of at most 50 entries, a non-negative cursor, and a latest index no larger than the frame counter |

## Left out

- ZeroMQ sockets, `poll`, client identities and multipart framing (distributor.py:26-35, 226-229, 238-241, 261-267): network I/O. Only the decision made per message is modelled. A full socket buffer is the `sendAccepted` parameter, and a poll timeout is a `None` message.
- Threads and the unsynchronised sharing of fields between them (distributor.py:42-61): concurrency. Each method is one atomic step. The "still full, drop" branch (distributor.py:202-204) is reachable only through a concurrent producer. In the sequential model the retried put always succeeds.
- Trace logging and export (distributor.py:63-171, 192, 274): timing records, float arithmetic and JSON file output.
- The clock read when no timestamp is given (distributor.py:175-176): the timestamp is a parameter.
- Text-to-number conversion of the collected parts (distributor.py:269, 274, 277): the model receives the converted index and values. A part that fails to convert raises, and the loop's handler drops the message, which leaves the state unchanged.
- `cleanup` (distributor.py:363-383): closes sockets and prints statistics.
- ffmpeg_app.py, webcam_app.py, worker.py, diffusion_worker.py and inverter.py are not part of this model. They handle capture, display, image encoding and the external diffusion model.
