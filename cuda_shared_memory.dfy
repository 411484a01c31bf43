// Sizing of the per-thread shared-memory reduction slot of the Kokkos CUDA
// reduction engine: a value occupies a whole number of 32-bit words, and the
// slot is padded by one word whenever that number is a multiple of the 32
// shared-memory banks.
module CudaSharedMemory {

  /** Bytes in one CudaWordType (an unsigned int). */
  const WordBytes: nat := 4

  /** Number of shared-memory banks the padding is designed against. */
  const SharedMemoryBanks: nat := 32

  /** CudaWordCount<ValueType>::value: the number of words a value of
      `sizeofValue` bytes occupies, rounded up. */
  function WordCount(sizeofValue: nat): (w: nat)
    ensures w * WordBytes >= sizeofValue
    ensures sizeofValue >= 1 ==> (w - 1) * WordBytes < sizeofValue
    ensures sizeofValue >= 1 ==> w >= 1
  {
    (sizeofValue + WordBytes - 1) / WordBytes
  }

  /** Length of the `storage` word array of CudaSharedMemoryReduceType: the
      word count, plus one word of padding when the word count is a multiple
      of the bank count. */
  function StorageLength(wordCount: nat): (n: nat)
    ensures n == wordCount || n == wordCount + 1
    ensures n % SharedMemoryBanks != 0
    ensures n >= 1
    ensures wordCount % SharedMemoryBanks != 0 ==> n == wordCount
  {
    wordCount + (if wordCount % SharedMemoryBanks != 0 then 0 else 1)
  }

  /** The padded length is not always odd, although the source's comment
      asks for an odd number of words: a two-word value gets no padding. */
  lemma StorageLengthNotAlwaysOdd()
    ensures StorageLength(WordCount(8)) == 2
  {
  }
}
